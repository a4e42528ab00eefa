/**
 * `asdict()`: the failure tree flattened into a mapping from dotted path to
 * the messages met along that path.
 */
module Report {
  import opened Wrappers
  import opened Types
  import opened Errors
  import Values
  import Decimal

  /** `str(pos)`. */
  function PosText(pos: Option<nat>): string
  {
    if pos.None? then "None" else Decimal.Render(pos.value)
  }

  /**
   * `_keyname()`: the failure's position when its parent failure concerns a
   * positional node, otherwise the node's name.
   */
  function KeyName(e: Failure, parentPositional: bool): string
  {
    if parentPositional then PosText(e.pos) else e.name
  }

  /**
   * Whether the parent of `path[i]` concerns a positional node. The parent of
   * `path[i]` is `path[i - 1]`; for the first element it is given.
   */
  predicate ParentPositional(path: seq<Failure>, i: nat, rootParentPositional: bool)
    requires i < |path|
  {
    if i == 0 then rootParentPositional else Positional(path[i - 1].typ)
  }

  /** The non-empty key names of the first `k` failures of the path. */
  function Segments(path: seq<Failure>, rootParentPositional: bool, k: nat): seq<string>
    requires k <= |path|
  {
    if k == 0 then []
    else
      var prev := Segments(path, rootParentPositional, k - 1);
      var name := KeyName(path[k - 1], ParentPositional(path, k - 1, rootParentPositional));
      if name != "" then prev + [name] else prev
  }

  /** The report key of a path: its non-empty segments joined by `.`. */
  function Key(path: seq<Failure>, rootParentPositional: bool): string
  {
    Values.Join(".", Segments(path, rootParentPositional, |path|))
  }

  /** Message truthiness: an empty text or an empty list adds nothing. */
  predicate Truthy(m: Message)
  {
    match m
    case Text(s) => s != ""
    case Many(parts) => parts != []
  }

  function Concat(ss: seq<seq<string>>): seq<string>
  {
    if ss == [] then [] else ss[0] + Concat(ss[1..])
  }

  /** The texts of a message, a list of messages contributing each of its texts. */
  function Texts(m: Message): seq<string>
  {
    match m
    case Text(s) => [s]
    case Many(parts) => Concat(seq(|parts|, i requires 0 <= i < |parts| => Texts(parts[i])))
  }

  /** The texts of the truthy messages among the first `k` failures of the path. */
  function Messages(path: seq<Failure>, k: nat): seq<string>
    requires k <= |path|
  {
    if k == 0 then []
    else
      var m := path[k - 1].msg;
      Messages(path, k - 1) + (if m.Some? && Truthy(m.value) then Texts(m.value) else [])
  }

  /** The report value of a path: its messages joined by `; `. */
  function Val(path: seq<Failure>): string
  {
    Values.Join("; ", Messages(path, |path|))
  }

  /** The entries of the given paths written in order: a later key overwrites an earlier one. */
  function ReportOf(ps: seq<seq<Failure>>, rootParentPositional: bool): map<string, string>
  {
    if ps == [] then map[]
    else
      var last := ps[|ps| - 1];
      ReportOf(ps[..|ps| - 1], rootParentPositional)[Key(last, rootParentPositional) := Val(last)]
  }

  /** `asdict()` of a failure; `rootParentPositional` tells how the failure itself is attached. */
  function AsDictOf(e: Failure, rootParentPositional: bool): map<string, string>
  {
    ReportOf(Paths(e), rootParentPositional)
  }

  /** The keys of the report are exactly the keys of the paths. */
  lemma ReportKeys(ps: seq<seq<Failure>>, root: bool)
    ensures forall i :: 0 <= i < |ps| ==> Key(ps[i], root) in ReportOf(ps, root)
    ensures forall k :: k in ReportOf(ps, root) ==> exists i :: 0 <= i < |ps| && Key(ps[i], root) == k
  {
    forall i | 0 <= i < |ps| ensures Key(ps[i], root) in ReportOf(ps, root) {
      ReportHasKey(ps, root, i);
    }
    forall k | k in ReportOf(ps, root) ensures exists i :: 0 <= i < |ps| && Key(ps[i], root) == k {
      ReportKeyFrom(ps, root, k);
    }
  }

  lemma {:induction false} ReportHasKey(ps: seq<seq<Failure>>, root: bool, i: nat)
    requires i < |ps|
    ensures Key(ps[i], root) in ReportOf(ps, root)
  {
    if i < |ps| - 1 {
      var front := ps[..|ps| - 1];
      assert front[i] == ps[i];
      ReportHasKey(front, root, i);
    }
  }

  lemma {:induction false} ReportKeyFrom(ps: seq<seq<Failure>>, root: bool, k: string)
    requires k in ReportOf(ps, root)
    ensures exists i :: 0 <= i < |ps| && Key(ps[i], root) == k
  {
    var front := ps[..|ps| - 1];
    var last := ps[|ps| - 1];
    if k != Key(last, root) {
      ReportKeyFrom(front, root, k);
      var i :| 0 <= i < |front| && Key(front[i], root) == k;
      assert front[i] == ps[i];
    }
  }

  /** A path whose key no later path repeats has its own value in the report. */
  lemma {:induction false} ReportValue(ps: seq<seq<Failure>>, root: bool, i: nat)
    requires i < |ps|
    requires forall j :: i < j < |ps| ==> Key(ps[j], root) != Key(ps[i], root)
    ensures Key(ps[i], root) in ReportOf(ps, root)
    ensures ReportOf(ps, root)[Key(ps[i], root)] == Val(ps[i])
  {
    if i < |ps| - 1 {
      var front := ps[..|ps| - 1];
      assert front[i] == ps[i];
      forall j | i < j < |front| ensures Key(front[j], root) != Key(front[i], root) {
        assert front[j] == ps[j];
      }
      ReportValue(front, root, i);
    }
  }

  /**
   * `asdict()`: walks every path, gathering the non-empty key names and the
   * truthy messages, and stores the joined message under the joined key.
   */
  method AsDict(e: Failure, rootParentPositional: bool) returns (errors: map<string, string>)
    ensures errors == AsDictOf(e, rootParentPositional)
  {
    var paths := CollectPaths(e);
    errors := map[];
    var i := 0;
    while i < |paths|
      invariant 0 <= i <= |paths|
      invariant errors == ReportOf(paths[..i], rootParentPositional)
    {
      var key, val := PathEntry(paths[i], rootParentPositional);
      ReportNext(paths, i, rootParentPositional);
      errors := errors[key := val];
      i := i + 1;
    }
    assert paths[..|paths|] == paths;
  }

  lemma ReportNext(ps: seq<seq<Failure>>, i: nat, root: bool)
    requires i < |ps|
    ensures ReportOf(ps[..i + 1], root) == ReportOf(ps[..i], root)[Key(ps[i], root) := Val(ps[i])]
  {
    assert ps[..i + 1][..i] == ps[..i];
  }

  /** What one more failure of the path adds to its key names and its messages. */
  lemma PathStep(path: seq<Failure>, root: bool, j: nat)
    requires j < |path|
    ensures var name := KeyName(path[j], if j == 0 then root else Positional(path[j - 1].typ));
      Segments(path, root, j + 1) == if name != "" then Segments(path, root, j) + [name] else Segments(path, root, j)
    ensures var m := path[j].msg;
      Messages(path, j + 1) == if m.Some? && Truthy(m.value) then Messages(path, j) + Texts(m.value) else Messages(path, j)
  {
  }

  /** One path of `asdict()`: its joined key names and its joined messages. */
  method PathEntry(path: seq<Failure>, rootParentPositional: bool) returns (key: string, val: string)
    ensures key == Key(path, rootParentPositional) && val == Val(path)
  {
    var keyparts: seq<string> := [];
    var msgs: seq<string> := [];
    var j := 0;
    while j < |path|
      invariant 0 <= j <= |path|
      invariant keyparts == Segments(path, rootParentPositional, j)
      invariant msgs == Messages(path, j)
    {
      var exc := path[j];
      PathStep(path, rootParentPositional, j);
      if exc.msg.Some? && Truthy(exc.msg.value) {
        msgs := msgs + Texts(exc.msg.value);
      }
      var keyname := KeyName(exc, if j == 0 then rootParentPositional else Positional(path[j - 1].typ));
      if keyname != "" {
        keyparts := keyparts + [keyname];
      }
      j := j + 1;
    }
    key, val := Values.Join(".", keyparts), Values.Join("; ", msgs);
  }

  // The report as the source writes it: `'; '.join(msgs)` with the raw
  // messages, which raises TypeError as soon as one of them is a list.

  /** The raw truthy messages of a path, or None when one of them is a list. */
  function MessagesAsWritten(path: seq<Failure>, k: nat): Option<seq<string>>
    requires k <= |path|
  {
    if k == 0 then Some([])
    else
      match MessagesAsWritten(path, k - 1)
      case None => None
      case Some(prev) =>
        var m := path[k - 1].msg;
        if m.Some? && Truthy(m.value) then
          (if m.value.Text? then Some(prev + [m.value.text]) else None)
        else Some(prev)
  }

  function ReportAsWrittenOf(ps: seq<seq<Failure>>, root: bool): Option<map<string, string>>
  {
    if ps == [] then Some(map[])
    else
      var last := ps[|ps| - 1];
      match (ReportAsWrittenOf(ps[..|ps| - 1], root), MessagesAsWritten(last, |last|))
      case (Some(m), Some(msgs)) => Some(m[Key(last, root) := Values.Join("; ", msgs)])
      case _ => None
  }

  /** `asdict()` as written; None stands for the TypeError it raises. */
  function AsDictAsWritten(e: Failure, root: bool): Option<map<string, string>>
  {
    ReportAsWrittenOf(Paths(e), root)
  }

  /** No failure on the path carries a truthy list message. */
  predicate NoListMessage(path: seq<Failure>)
  {
    forall j :: 0 <= j < |path| ==> path[j].msg.None? || !Truthy(path[j].msg.value) || path[j].msg.value.Text?
  }

  lemma {:induction false} MessagesAgree(path: seq<Failure>, k: nat)
    requires k <= |path|
    ensures MessagesAsWritten(path, k).Some? <==> NoListMessage(path[..k])
    ensures NoListMessage(path[..k]) ==> MessagesAsWritten(path, k) == Some(Messages(path, k))
  {
    if k > 0 {
      MessagesAgree(path, k - 1);
      var m := path[k - 1].msg;
      var ok := m.None? || !Truthy(m.value) || m.value.Text?;
      assert path[..k - 1] == path[..k][..k - 1];
      assert path[..k][k - 1] == path[k - 1];
      assert NoListMessage(path[..k]) ==> NoListMessage(path[..k - 1]);
      assert NoListMessage(path[..k]) ==> ok;
      assert NoListMessage(path[..k - 1]) && ok ==> NoListMessage(path[..k]);
      if NoListMessage(path[..k]) {
        assert MessagesAsWritten(path, k - 1) == Some(Messages(path, k - 1));
        if m.Some? && Truthy(m.value) {
          assert m.value.Text?;
          assert Texts(m.value) == [m.value.text];
          assert MessagesAsWritten(path, k) == Some(Messages(path, k - 1) + [m.value.text]);
        } else {
          assert Messages(path, k) == Messages(path, k - 1) + [] == Messages(path, k - 1);
          assert MessagesAsWritten(path, k) == Some(Messages(path, k - 1));
        }
      }
    }
  }

  /** Where no path meets a list message, the source's report and the corrected one agree. */
  lemma {:induction false} AsWrittenAgrees(ps: seq<seq<Failure>>, root: bool)
    requires forall i :: 0 <= i < |ps| ==> NoListMessage(ps[i])
    ensures ReportAsWrittenOf(ps, root) == Some(ReportOf(ps, root))
  {
    if ps != [] {
      var last := ps[|ps| - 1];
      AsWrittenAgrees(ps[..|ps| - 1], root);
      MessagesAgree(last, |last|);
      assert last[..|last|] == last;
    }
  }

  /** Any path with a truthy list message makes the source's `asdict()` raise. */
  lemma {:induction false} AsWrittenRaises(ps: seq<seq<Failure>>, root: bool, i: nat)
    requires i < |ps| && !NoListMessage(ps[i])
    ensures ReportAsWrittenOf(ps, root).None?
  {
    var last := ps[|ps| - 1];
    if i == |ps| - 1 {
      MessagesAgree(last, |last|);
      assert last[..|last|] == last;
    } else {
      assert ps[..|ps| - 1][i] == ps[i];
      AsWrittenRaises(ps[..|ps| - 1], root, i);
    }
  }

  /**
   * The source's `asdict()` raises on the failure an All validator produces,
   * where the corrected report joins the texts of the list.
   */
  lemma AllMessageReport()
    ensures var e := Fresh("age", Integer, Some(Many([Text("a"), Text("b")])));
      AsDictAsWritten(e, false).None? && AsDictOf(e, false) == map["age" := "a; b"]
  {
    var e := Fresh("age", Integer, Some(Many([Text("a"), Text("b")])));
    assert Paths(e) == [[e]];
    var parts := [Text("a"), Text("b")];
    assert seq(|parts|, i requires 0 <= i < |parts| => Texts(parts[i])) == [["a"], ["b"]];
    assert Concat([["a"], ["b"]]) == ["a", "b"] by {
      assert Concat([["b"]]) == ["b"] by { assert [["b"]][1..] == []; }
      assert [["a"], ["b"]][1..] == [["b"]];
    }
    assert Messages([e], 1) == ["a", "b"];
    assert Values.Join("; ", ["a", "b"]) == "a; b" by {
      assert ["a", "b"][1..] == ["b"];
    }
    assert Segments([e], false, 1) == ["age"];
    assert [e][0] == e;
    assert !NoListMessage([e]);
    AsWrittenRaises(Paths(e), false, 0);
  }
}
