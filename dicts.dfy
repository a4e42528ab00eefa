/**
 * The dict operations the Mapping type performs, on an association list:
 * `dict(value)`, `pop`, item assignment and `update`.
 */
module Dicts {
  import opened Wrappers
  import opened Values
  import Decimal

  /** The keys of `d`, in order. */
  function Keys(d: Entries): (ks: seq<Value>)
    ensures |ks| == |d|
    ensures forall i :: 0 <= i < |d| ==> ks[i] == d[i].0
  {
    if d == [] then [] else [d[0].0] + Keys(d[1..])
  }

  predicate HasKey(d: Entries, k: Value)
  {
    k in Keys(d)
  }

  /** No key occurs twice: what every Python dict satisfies. */
  predicate DistinctKeys(d: Entries)
  {
    forall i, j :: 0 <= i < j < |d| ==> d[i].0 != d[j].0
  }

  /** `d.get(k)`: the value of the first entry with key `k`. */
  function Lookup(d: Entries, k: Value): (r: Option<Value>)
    ensures r.None? <==> !HasKey(d, k)
  {
    if d == [] then None
    else if d[0].0 == k then Some(d[0].1)
    else
      assert Keys(d) == [d[0].0] + Keys(d[1..]);
      Lookup(d[1..], k)
  }

  lemma {:induction false} LookupDistinct(d: Entries, i: nat)
    requires DistinctKeys(d) && i < |d|
    ensures Lookup(d, d[i].0) == Some(d[i].1)
  {
    if i > 0 {
      assert d[0].0 != d[i].0;
      assert d[1..][i - 1] == d[i];
      LookupDistinct(d[1..], i - 1);
    }
  }

  /** `d[k] = v`: replaces the value of an existing key, else adds the entry at the end. */
  function Set(d: Entries, k: Value, v: Value): (r: Entries)
    ensures Keys(r) == if HasKey(d, k) then Keys(d) else Keys(d) + [k]
  {
    if d == [] then [(k, v)]
    else if d[0].0 == k then
      var r := [(k, v)] + d[1..];
      assert Keys(r) == [k] + Keys(d[1..]);
      r
    else
      var rest := Set(d[1..], k, v);
      var r := [d[0]] + rest;
      assert Keys(r) == [d[0].0] + Keys(rest) by { assert r[1..] == rest; }
      assert Keys(d) == [d[0].0] + Keys(d[1..]);
      r
  }

  lemma {:induction false} SetLookup(d: Entries, k: Value, v: Value, k': Value)
    ensures Lookup(Set(d, k, v), k') == if k' == k then Some(v) else Lookup(d, k')
  {
    if d != [] && d[0].0 != k {
      assert Set(d, k, v)[1..] == Set(d[1..], k, v);
      SetLookup(d[1..], k, v, k');
    }
  }

  /** `d[k] = v` adds `k` to the keys and keeps the others. */
  lemma SetHasKey(d: Entries, k: Value, v: Value, k': Value)
    ensures HasKey(Set(d, k, v), k') <==> HasKey(d, k') || k' == k
  {
    assert Keys(Set(d, k, v)) == if HasKey(d, k) then Keys(d) else Keys(d) + [k];
  }

  lemma SetDistinct(d: Entries, k: Value, v: Value)
    requires DistinctKeys(d)
    ensures DistinctKeys(Set(d, k, v))
  {
    var r := Set(d, k, v);
    forall i, j | 0 <= i < j < |r| ensures r[i].0 != r[j].0 {
      assert Keys(r)[i] == r[i].0 && Keys(r)[j] == r[j].0;
      assert j < |d| ==> Keys(d)[i] == d[i].0 && Keys(d)[j] == d[j].0;
    }
  }

  /** The entries whose key is not `k`, in their order. */
  function Without(d: Entries, k: Value): (r: Entries)
    ensures |r| <= |d|
  {
    if d == [] then []
    else if d[0].0 == k then Without(d[1..], k)
    else [d[0]] + Without(d[1..], k)
  }

  lemma {:induction false} WithoutLookup(d: Entries, k: Value, k': Value)
    ensures Lookup(Without(d, k), k') == if k' == k then None else Lookup(d, k')
    ensures HasKey(Without(d, k), k') <==> HasKey(d, k') && k' != k
  {
    if d != [] {
      WithoutLookup(d[1..], k, k');
      assert Keys(d) == [d[0].0] + Keys(d[1..]);
      if d[0].0 != k {
        var r := Without(d, k);
        assert r[1..] == Without(d[1..], k);
        assert Keys(r) == [d[0].0] + Keys(r[1..]);
      }
    }
  }

  lemma {:induction false} WithoutAbsent(d: Entries, k: Value)
    requires !HasKey(d, k)
    ensures Without(d, k) == d
  {
    if d != [] {
      assert Keys(d) == [d[0].0] + Keys(d[1..]);
      WithoutAbsent(d[1..], k);
    }
  }

  lemma {:induction false} WithoutDistinct(d: Entries, k: Value)
    requires DistinctKeys(d)
    ensures DistinctKeys(Without(d, k))
  {
    if d != [] {
      var rest := Without(d[1..], k);
      assert DistinctKeys(rest) by {
        assert DistinctKeys(d[1..]) by {
          assert forall i :: 0 <= i < |d| - 1 ==> d[1..][i] == d[i + 1];
        }
        WithoutDistinct(d[1..], k);
      }
      if d[0].0 != k {
        var r := Without(d, k);
        assert r == [d[0]] + rest;
        assert !HasKey(rest, d[0].0) by {
          assert !HasKey(d[1..], d[0].0) by {
            assert forall i :: 0 <= i < |d| - 1 ==> Keys(d[1..])[i] == d[i + 1].0 != d[0].0;
          }
          WithoutLookup(d[1..], k, d[0].0);
        }
        FreshFirst(d[0], rest);
      }
    }
  }

  /** An entry whose key is new, put before a dict with distinct keys, keeps the keys distinct. */
  lemma FreshFirst(e: (Value, Value), rest: Entries)
    requires DistinctKeys(rest) && !HasKey(rest, e.0)
    ensures DistinctKeys([e] + rest)
  {
    var r := [e] + rest;
    forall i, j | 0 <= i < j < |r| ensures r[i].0 != r[j].0 {
      assert r[j] == rest[j - 1] && Keys(rest)[j - 1] == rest[j - 1].0;
      if i > 0 {
        assert r[i] == rest[i - 1];
      }
    }
  }

  /** `d.pop(k, missing)`: the value for `k`, if any, and the dict without `k`. */
  function Pop(d: Entries, k: Value): (Option<Value>, Entries)
  {
    (Lookup(d, k), Without(d, k))
  }

  /** Assigning the pairs one after another into `d`: `d.update(pairs)`. */
  function Update(d: Entries, pairs: Entries): (r: Entries)
    decreases |pairs|
  {
    if pairs == [] then d else Update(Set(d, pairs[0].0, pairs[0].1), pairs[1..])
  }

  lemma {:induction false} UpdateDistinct(d: Entries, pairs: Entries)
    requires DistinctKeys(d)
    ensures DistinctKeys(Update(d, pairs))
    decreases |pairs|
  {
    if pairs != [] {
      SetDistinct(d, pairs[0].0, pairs[0].1);
      UpdateDistinct(Set(d, pairs[0].0, pairs[0].1), pairs[1..]);
    }
  }

  /** After `d.update(pairs)` with distinct keys, a key of the pairs has its value from the pairs, any other key its old value. */
  lemma {:induction false} UpdateLookup(d: Entries, pairs: Entries, k: Value)
    requires DistinctKeys(pairs)
    ensures Lookup(Update(d, pairs), k) == if HasKey(pairs, k) then Lookup(pairs, k) else Lookup(d, k)
    decreases |pairs|
  {
    if pairs != [] {
      var p := pairs[0];
      var rest := pairs[1..];
      assert DistinctKeys(rest) by {
        forall i, j | 0 <= i < j < |rest| ensures rest[i].0 != rest[j].0 {
          assert rest[i] == pairs[i + 1] && rest[j] == pairs[j + 1];
        }
      }
      assert Keys(pairs) == [p.0] + Keys(rest);
      assert !HasKey(rest, p.0) by {
        forall i | 0 <= i < |rest| ensures Keys(rest)[i] != p.0 {
          assert rest[i] == pairs[i + 1];
        }
      }
      UpdateLookup(Set(d, p.0, p.1), rest, k);
      SetLookup(d, p.0, p.1, k);
    }
  }

  /** `d.update(pairs)` has the keys of both. */
  lemma UpdateHasKey(d: Entries, pairs: Entries, k: Value)
    requires DistinctKeys(pairs)
    ensures HasKey(Update(d, pairs), k) <==> HasKey(d, k) || HasKey(pairs, k)
  {
    UpdateLookup(d, pairs, k);
  }

  /** `dict(pairs)`: later pairs overwrite earlier ones with the same key. */
  function FromPairs(pairs: Entries): (r: Entries)
    ensures DistinctKeys(r)
  {
    UpdateDistinct([], pairs);
    Update([], pairs)
  }

  lemma {:induction false} SetAppends(d: Entries, k: Value, v: Value)
    requires !HasKey(d, k)
    ensures Set(d, k, v) == d + [(k, v)]
  {
    if d != [] {
      assert d[0].0 != k && !HasKey(d[1..], k) by {
        assert Keys(d) == [d[0].0] + Keys(d[1..]);
      }
      assert Set(d, k, v) == [d[0]] + Set(d[1..], k, v);
      SetAppends(d[1..], k, v);
      assert [d[0]] + (d[1..] + [(k, v)]) == d + [(k, v)];
    }
  }

  /** Updating with pairs whose keys are new and distinct appends them. */
  lemma {:induction false} UpdateFresh(d: Entries, pairs: Entries)
    requires DistinctKeys(d + pairs)
    ensures Update(d, pairs) == d + pairs
    decreases |pairs|
  {
    if pairs != [] {
      var p := pairs[0];
      FirstFresh(d, pairs);
      SetAppends(d, p.0, p.1);
      UpdateFresh(d + [p], pairs[1..]);
    }
  }

  lemma FirstFresh(d: Entries, pairs: Entries)
    requires pairs != [] && DistinctKeys(d + pairs)
    ensures !HasKey(d, pairs[0].0)
    ensures (d + [pairs[0]]) + pairs[1..] == d + pairs
  {
    forall i | 0 <= i < |d| ensures Keys(d)[i] != pairs[0].0 {
      assert (d + pairs)[i] == d[i] && (d + pairs)[|d|] == pairs[0];
    }
    assert pairs == [pairs[0]] + pairs[1..];
  }

  /** A dict with distinct keys is its own copy: `dict(d) == d`. */
  lemma FromDistinct(d: Entries)
    requires DistinctKeys(d)
    ensures FromPairs(d) == d
  {
    assert [] + d == d;
    UpdateFresh([], d);
  }

  /** An element `dict()` accepts: an iterable of exactly two items, the first hashable. */
  predicate IsPair(x: Value)
  {
    var it := Iterate(x);
    it.Some? && |it.value| == 2 && Hashable(it.value[0])
  }

  /**
   * `dict(v)`: a mapping is copied; any other iterable must yield hashable
   * key/value pairs; everything else is a TypeError or ValueError (None).
   */
  function DictOf(v: Value): (r: Option<Entries>)
    ensures r.Some? ==> DistinctKeys(r.value)
    ensures v.VDict? ==> r == Some(FromPairs(v.entries))
    ensures r.None? <==> !v.VDict? && (Iterate(v).None? || exists i :: 0 <= i < |Iterate(v).value| && !IsPair(Iterate(v).value[i]))
  {
    if v.VDict? then Some(FromPairs(v.entries))
    else match Iterate(v)
      case None => None
      case Some(xs) =>
        if forall i :: 0 <= i < |xs| ==> IsPair(xs[i]) then
          Some(FromPairs(seq(|xs|, i requires 0 <= i < |xs| && IsPair(xs[i]) =>
                               (Iterate(xs[i]).value[0], Iterate(xs[i]).value[1]))))
        else None
  }

  /** The index of the first element from `k` on that is not a pair. */
  function FirstNonPair(xs: seq<Value>, k: nat): (i: nat)
    requires k <= |xs| && exists j :: k <= j < |xs| && !IsPair(xs[j])
    ensures k <= i < |xs| && !IsPair(xs[i])
    ensures forall j :: k <= j < i ==> IsPair(xs[j])
    decreases |xs| - k
  {
    if !IsPair(xs[k]) then k else FirstNonPair(xs, k + 1)
  }

  /** The message of the exception `dict(v)` raises, in CPython 2.7's wording. */
  function DictError(v: Value): string
    requires DictOf(v).None?
  {
    match Iterate(v)
    case None => "'" + TypeName(v) + "' object is not iterable"
    case Some(xs) =>
      var i := FirstNonPair(xs, 0);
      var num := Decimal.Render(i);
      match Iterate(xs[i])
      case None => "cannot convert dictionary update sequence element #" + num + " to a sequence"
      case Some(kv) =>
        if |kv| != 2 then
          "dictionary update sequence element #" + num + " has length " + Decimal.Render(|kv|) + "; 2 is required"
        else "unhashable type: '" + UnhashableName(kv[0]) + "'"
  }
}
