/**
 * Python's `dict` with string keys: a map that remembers the order in which its keys were
 * first inserted. Assigning to an existing key keeps its position.
 */
module Dicts {
  import opened Seqs

  datatype Dict<V> = Dict(keys: seq<string>, entries: map<string, V>)
  {
    /** The key order lists each key of the map exactly once. */
    ghost predicate Valid() {
      NoDups(keys) && forall k :: k in entries <==> k in keys
    }
  }

  function Empty<V>(): (r: Dict<V>)
    ensures r.Valid() && r.keys == []
  {
    Dict([], map[])
  }

  /** `d[k] = v`. */
  function Put<V>(d: Dict<V>, k: string, v: V): (r: Dict<V>)
    requires d.Valid()
    ensures r.Valid()
    ensures k in r.entries && r.entries[k] == v
    ensures forall k' :: k' != k ==> (k' in r.entries <==> k' in d.entries)
    ensures forall k' | k' != k && k' in d.entries :: r.entries[k'] == d.entries[k']
    ensures d.keys <= r.keys
  {
    if k in d.entries then Dict(d.keys, d.entries[k := v])
    else Dict(d.keys + [k], d.entries[k := v])
  }

  /** `d.get(k, default)`. */
  function Get<V>(d: Dict<V>, k: string, default: V): V {
    if k in d.entries then d.entries[k] else default
  }

  /** The distinct elements of `s` in the order of their first occurrence. */
  function Dedup(s: seq<string>): (r: seq<string>)
    ensures NoDups(r)
    ensures forall x :: x in r <==> x in s
    decreases |s|
  {
    if s == [] then []
    else
      var init := Dedup(s[..|s| - 1]);
      var x := s[|s| - 1];
      assert forall y :: y in s <==> y in s[..|s| - 1] || y == x by {
        assert s == s[..|s| - 1] + [x];
      }
      if x in init then init else init + [x]
  }

  /** `{k: v for (k, v) in pairs}`: later pairs overwrite earlier ones. */
  function FromPairs<V>(pairs: seq<(string, V)>): (r: Dict<V>)
    ensures r.Valid()
    decreases |pairs|
  {
    if pairs == [] then Empty()
    else
      var p := pairs[|pairs| - 1];
      Put(FromPairs(pairs[..|pairs| - 1]), p.0, p.1)
  }

  function Firsts<V>(pairs: seq<(string, V)>): (r: seq<string>)
    ensures |r| == |pairs| && forall i :: 0 <= i < |pairs| ==> r[i] == pairs[i].0
  {
    seq(|pairs|, i requires 0 <= i < |pairs| => pairs[i].0)
  }

  /** The keys are the pairs' first components, each once, in first-seen order. */
  lemma {:induction false} FromPairsKeys<V>(pairs: seq<(string, V)>)
    ensures FromPairs(pairs).keys == Dedup(Firsts(pairs))
    decreases |pairs|
  {
    if pairs != [] {
      var init := pairs[..|pairs| - 1];
      FromPairsKeys(init);
      assert Firsts(pairs)[..|pairs| - 1] == Firsts(init);
    }
  }

  /** Each key maps to the second component of the last pair that has it. */
  lemma {:induction false} FromPairsLastWins<V>(pairs: seq<(string, V)>, i: nat)
    requires i < |pairs|
    requires forall j :: i < j < |pairs| ==> pairs[j].0 != pairs[i].0
    ensures pairs[i].0 in FromPairs(pairs).entries
    ensures FromPairs(pairs).entries[pairs[i].0] == pairs[i].1
    decreases |pairs|
  {
    if i < |pairs| - 1 {
      FromPairsLastWins(pairs[..|pairs| - 1], i);
    }
  }

  /** Every key of the dict comes from some pair. */
  lemma {:induction false} FromPairsFrom<V>(pairs: seq<(string, V)>, k: string)
    requires k in FromPairs(pairs).entries
    ensures exists i :: 0 <= i < |pairs| && pairs[i].0 == k
    decreases |pairs|
  {
    var init := pairs[..|pairs| - 1];
    if k != pairs[|pairs| - 1].0 {
      FromPairsFrom(init, k);
      var i :| 0 <= i < |init| && init[i].0 == k;
      assert pairs[i] == init[i];
    }
  }
}
