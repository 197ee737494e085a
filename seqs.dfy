/**
 * Python list idioms the core relies on: comprehensions with a filter,
 * `next((x for x in xs if p(x)), None)` and `sorted(xs, key=k, reverse=True)`,
 * whose stability keeps equal keys in their original order.
 */
module Seqs {
  import opened Common

  /** No element occurs twice. */
  predicate NoDups<T(==)>(s: seq<T>) {
    forall i, j :: 0 <= i < j < |s| ==> s[i] != s[j]
  }

  /** `[x for x in s if p(x)]`. */
  function Filter<T>(p: T -> bool, s: seq<T>): (r: seq<T>)
    ensures |r| <= |s|
    decreases |s|
  {
    if s == [] then [] else (if p(s[0]) then [s[0]] else []) + Filter(p, s[1..])
  }

  /** A non-empty sequence is its front followed by its last element. */
  lemma InitLast<T>(s: seq<T>)
    requires s != []
    ensures s == s[..|s| - 1] + [s[|s| - 1]]
  {
  }

  lemma {:induction false} FilterMembers<T>(p: T -> bool, s: seq<T>)
    ensures forall x :: x in Filter(p, s) <==> x in s && p(x)
    decreases |s|
  {
    if s != [] {
      FilterMembers(p, s[1..]);
      assert s == [s[0]] + s[1..];
    }
  }

  /** Filtering keeps the relative order: it distributes over concatenation. */
  lemma {:induction false} FilterConcat<T>(p: T -> bool, a: seq<T>, b: seq<T>)
    ensures Filter(p, a + b) == Filter(p, a) + Filter(p, b)
    decreases |a|
  {
    if a == [] {
      assert a + b == b;
    } else {
      var x := if p(a[0]) then [a[0]] else [];
      assert (a + b)[0] == a[0];
      assert (a + b)[1..] == a[1..] + b;
      assert Filter(p, a + b) == x + Filter(p, a[1..] + b);
      assert Filter(p, a) == x + Filter(p, a[1..]);
      FilterConcat(p, a[1..], b);
      assert x + (Filter(p, a[1..]) + Filter(p, b)) == x + Filter(p, a[1..]) + Filter(p, b);
    }
  }

  lemma {:induction false} FilterNone<T>(p: T -> bool, s: seq<T>)
    requires forall i :: 0 <= i < |s| ==> !p(s[i])
    ensures Filter(p, s) == []
    decreases |s|
  {
    if s != [] {
      FilterNone(p, s[1..]);
    }
  }

  lemma {:induction false} FilterAll<T>(p: T -> bool, s: seq<T>)
    requires forall i :: 0 <= i < |s| ==> p(s[i])
    ensures Filter(p, s) == s
    decreases |s|
  {
    if s != [] {
      FilterAll(p, s[1..]);
      assert s == [s[0]] + s[1..];
    }
  }
  /** Only the middle part, all of whose elements pass, survives a filter. */
  lemma FilterMiddle<T>(p: T -> bool, a: seq<T>, b: seq<T>, c: seq<T>)
    requires forall i :: 0 <= i < |a| ==> !p(a[i])
    requires forall i :: 0 <= i < |b| ==> p(b[i])
    requires Filter(p, c) == []
    ensures Filter(p, a + b + c) == b
  {
    FilterConcat(p, a + b, c);
    FilterConcat(p, a, b);
    FilterNone(p, a);
    FilterAll(p, b);
    assert Filter(p, a + b) == b;
  }


  /** The first index at or after `from` whose element satisfies `p`. */
  function FirstFrom<T>(p: T -> bool, s: seq<T>, from: nat): (r: Option<nat>)
    requires from <= |s|
    ensures r.Some? ==> from <= r.value < |s| && p(s[r.value])
    ensures r.Some? ==> forall j :: from <= j < r.value ==> !p(s[j])
    ensures r.None? ==> forall j :: from <= j < |s| ==> !p(s[j])
    decreases |s| - from
  {
    if from == |s| then None
    else if p(s[from]) then Some(from)
    else FirstFrom(p, s, from + 1)
  }

  /** The index of the first element satisfying `p`: the element Python's `next(...)` yields. */
  function First<T>(p: T -> bool, s: seq<T>): (r: Option<nat>)
    ensures r.Some? ==> r.value < |s| && p(s[r.value])
    ensures r.Some? ==> forall j :: 0 <= j < r.value ==> !p(s[j])
    ensures r.None? ==> forall j :: 0 <= j < |s| ==> !p(s[j])
  {
    FirstFrom(p, s, 0)
  }

  lemma FirstIs<T>(p: T -> bool, s: seq<T>, i: nat)
    requires i < |s| && p(s[i])
    requires forall j :: 0 <= j < i ==> !p(s[j])
    ensures First(p, s) == Some(i)
  {
    assert First(p, s).Some?;
    var v := First(p, s).value;
    assert !(v < i);
    assert !(v > i);
  }

  // ---------------------------------------------------------------------------
  // `sorted(s, key=key, reverse=True)`: stable, largest key first.

  /** Puts `x` in front of the first element whose key is not larger than `x`'s. */
  function Insert<T>(x: T, t: seq<T>, key: T -> int): (r: seq<T>)
    ensures |r| == |t| + 1
    decreases |t|
  {
    if t == [] || key(x) >= key(t[0]) then [x] + t
    else [t[0]] + Insert(x, t[1..], key)
  }

  function SortDesc<T>(s: seq<T>, key: T -> int): (r: seq<T>)
    ensures |r| == |s|
    decreases |s|
  {
    if s == [] then [] else Insert(s[0], SortDesc(s[1..], key), key)
  }

  predicate SortedDesc<T>(s: seq<T>, key: T -> int) {
    forall i, j :: 0 <= i < j < |s| ==> key(s[i]) >= key(s[j])
  }

  /** The elements whose key is `v`, in order. */
  function WithKey<T>(s: seq<T>, key: T -> int, v: int): seq<T>
    decreases |s|
  {
    if s == [] then [] else (if key(s[0]) == v then [s[0]] else []) + WithKey(s[1..], key, v)
  }

  lemma {:induction false} InsertPerm<T>(x: T, t: seq<T>, key: T -> int)
    ensures multiset(Insert(x, t, key)) == multiset(t) + multiset{x}
    decreases |t|
  {
    if t != [] && key(x) < key(t[0]) {
      InsertPerm(x, t[1..], key);
      assert t == [t[0]] + t[1..];
    }
  }

  lemma {:induction false} InsertSorted<T>(x: T, t: seq<T>, key: T -> int)
    requires SortedDesc(t, key)
    ensures SortedDesc(Insert(x, t, key), key)
    decreases |t|
  {
    if t != [] && key(x) < key(t[0]) {
      var rest := t[1..];
      InsertSorted(x, rest, key);
      InsertPerm(x, rest, key);
      var r := Insert(x, t, key);
      forall i, j | 0 <= i < j < |r| ensures key(r[i]) >= key(r[j]) {
        if i == 0 {
          var y := r[j];
          assert y in multiset(Insert(x, rest, key));
          assert y == x || y in rest;
        }
      }
    }
  }

  lemma {:induction false} InsertWithKey<T>(x: T, t: seq<T>, key: T -> int, v: int)
    ensures WithKey(Insert(x, t, key), key, v) == WithKey([x], key, v) + WithKey(t, key, v)
    decreases |t|
  {
    if t == [] || key(x) >= key(t[0]) {
      assert ([x] + t)[1..] == t;
    } else {
      var r := [t[0]] + Insert(x, t[1..], key);
      assert r[1..] == Insert(x, t[1..], key);
      InsertWithKey(x, t[1..], key, v);
    }
  }

  /** The result is a permutation of the input. */
  /** Sortedness carries over to a key that agrees on every element. */
  lemma SortedDescSameKey<T>(s: seq<T>, key: T -> int, key': T -> int)
    requires SortedDesc(s, key)
    requires forall i :: 0 <= i < |s| ==> key(s[i]) == key'(s[i])
    ensures SortedDesc(s, key')
  {
  }

  lemma {:induction false} SortDescPerm<T>(s: seq<T>, key: T -> int)
    ensures multiset(SortDesc(s, key)) == multiset(s)
    decreases |s|
  {
    if s != [] {
      SortDescPerm(s[1..], key);
      InsertPerm(s[0], SortDesc(s[1..], key), key);
      assert s == [s[0]] + s[1..];
    }
  }

  /** Keys never increase along the result. */
  lemma {:induction false} SortDescSorted<T>(s: seq<T>, key: T -> int)
    ensures SortedDesc(SortDesc(s, key), key)
    decreases |s|
  {
    if s != [] {
      SortDescSorted(s[1..], key);
      InsertSorted(s[0], SortDesc(s[1..], key), key);
    }
  }

  /** Stability: the elements with any one key keep their original order. */
  lemma {:induction false} SortDescStable<T>(s: seq<T>, key: T -> int, v: int)
    ensures WithKey(SortDesc(s, key), key, v) == WithKey(s, key, v)
    decreases |s|
  {
    if s != [] {
      var x := if key(s[0]) == v then [s[0]] else [];
      SortDescStable(s[1..], key, v);
      InsertWithKey(s[0], SortDesc(s[1..], key), key, v);
      assert [s[0]][1..] == [];
      assert WithKey([s[0]], key, v) == x + WithKey([], key, v) == x;
      assert WithKey(s, key, v) == x + WithKey(s[1..], key, v);
    }
  }

  /** Sorting neither adds, drops nor repeats elements. */
  lemma SortDescMembers<T>(s: seq<T>, key: T -> int)
    ensures forall x :: x in SortDesc(s, key) <==> x in s
    ensures NoDups(s) ==> NoDups(SortDesc(s, key))
  {
    SortDescPerm(s, key);
    var r := SortDesc(s, key);
    forall x ensures x in r <==> x in s {
      assert x in r <==> x in multiset(r);
      assert x in s <==> x in multiset(s);
    }
    if NoDups(s) {
      forall i, j | 0 <= i < j < |r| ensures r[i] != r[j] {
        if r[i] == r[j] {
          MultisetTwice(r, i, j);
          NoDupsOnce(s, r[i]);
        }
      }
    }
  }

  lemma MultisetTwice<T>(r: seq<T>, i: nat, j: nat)
    requires i < j < |r| && r[i] == r[j]
    ensures multiset(r)[r[i]] >= 2
  {
    assert r == r[..i] + [r[i]] + r[i + 1..j] + [r[j]] + r[j + 1..];
  }

  lemma {:induction false} NoDupsOnce<T>(s: seq<T>, x: T)
    requires NoDups(s)
    ensures multiset(s)[x] <= 1
    decreases |s|
  {
    if s != [] {
      assert s == [s[0]] + s[1..];
      NoDupsOnce(s[1..], x);
      if s[0] == x {
        assert x !in s[1..];
      }
    }
  }

  // ---------------------------------------------------------------------------
  // Nested lists.

  /** `[x for xs in lists for x in xs]`. */
  function Flatten<T>(lists: seq<seq<T>>): seq<T>
    decreases |lists|
  {
    if lists == [] then [] else Flatten(lists[..|lists| - 1]) + lists[|lists| - 1]
  }

  lemma {:induction false} FlattenMembers<T>(lists: seq<seq<T>>, x: T)
    ensures x in Flatten(lists) <==> exists i :: 0 <= i < |lists| && x in lists[i]
    decreases |lists|
  {
    if lists != [] {
      var init := lists[..|lists| - 1];
      var last := lists[|lists| - 1];
      FlattenMembers(init, x);
      assert Flatten(lists) == Flatten(init) + last;
      assert x in Flatten(lists) <==> x in Flatten(init) || x in last;
      if x in Flatten(init) {
        var i :| 0 <= i < |init| && x in init[i];
        assert lists[i] == init[i];
      }
      if exists i :: 0 <= i < |lists| && x in lists[i] {
        var i :| 0 <= i < |lists| && x in lists[i];
        if i < |init| {
          assert init[i] == lists[i];
        }
      }
    }
  }
}
