/** The JavaScript array operations the services use (`filter`, `some`,
    `find`, `map`), stated once over sequences, with the facts about them that
    the services' proofs need. Searches by key (`x => key(x) === v`) are named
    so that every use site refers to the same function value. */
module ArrayOps {
  import opened Wrappers

  /** `Array.prototype.filter`: the elements that satisfy `keep`, in order. */
  function Filter<T>(s: seq<T>, keep: T -> bool): (r: seq<T>)
    ensures |r| <= |s|
  {
    if s == [] then []
    else (if keep(s[0]) then [s[0]] else []) + Filter(s[1..], keep)
  }

  /** What `Filter` keeps: only elements of `s` that satisfy `keep`, and every
      one of them. */
  lemma {:induction false} FilterMembers<T>(s: seq<T>, keep: T -> bool)
    ensures forall i :: 0 <= i < |Filter(s, keep)| ==>
      Filter(s, keep)[i] in s && keep(Filter(s, keep)[i])
    ensures forall i :: 0 <= i < |s| && keep(s[i]) ==> s[i] in Filter(s, keep)
  {
    if s != [] {
      var rest := Filter(s[1..], keep);
      var r := Filter(s, keep);
      var head := if keep(s[0]) then [s[0]] else [];
      FilterMembers(s[1..], keep);
      assert r == head + rest;
      forall i | 0 <= i < |r|
        ensures r[i] in s && keep(r[i])
      {
        if i >= |head| {
          assert r[i] == rest[i - |head|];
          assert rest[i - |head|] in s[1..];
        }
      }
      forall i | 0 <= i < |s| && keep(s[i])
        ensures s[i] in r
      {
        if i > 0 {
          assert s[i] == s[1..][i - 1];
          assert s[i] in rest;
        }
      }
    }
  }

  /** `Array.prototype.some`: some element satisfies `p`. */
  function Any<T>(s: seq<T>, p: T -> bool): (b: bool)
    ensures b <==> exists i :: 0 <= i < |s| && p(s[i])
  {
    if s == [] then false
    else p(s[0]) || Any(s[1..], p)
  }

  /** `Array.prototype.map`. */
  function Map<T, U>(s: seq<T>, f: T -> U): (r: seq<U>)
    ensures |r| == |s|
    ensures forall i :: 0 <= i < |s| ==> r[i] == f(s[i])
  {
    seq(|s|, i requires 0 <= i < |s| => f(s[i]))
  }

  /** The elements whose key differs from `v`: `s.filter(x => key(x) !== v)`. */
  function Without<T, K(==)>(s: seq<T>, key: T -> K, v: K): seq<T> {
    Filter(s, x => key(x) != v)
  }

  /** What `Without` keeps: only elements of `s` whose key is not `v`, and
      every one of them. */
  lemma WithoutMembers<T, K>(s: seq<T>, key: T -> K, v: K)
    ensures forall i :: 0 <= i < |Without(s, key, v)| ==>
      Without(s, key, v)[i] in s && key(Without(s, key, v)[i]) != v
    ensures forall i :: 0 <= i < |s| && key(s[i]) != v ==> s[i] in Without(s, key, v)
  {
    FilterMembers(s, x => key(x) != v);
  }

  /** Some element has key `v`: `s.some(x => key(x) === v)`. */
  function HasKey<T, K(==)>(s: seq<T>, key: T -> K, v: K): (b: bool)
    ensures b <==> exists i :: 0 <= i < |s| && key(s[i]) == v
  {
    Any(s, x => key(x) == v)
  }

  /** Position of the first element with key `v`: where `s.find(x => key(x) === v)`
      stops, or None when it returns `undefined`. */
  function IndexOfKey<T, K(==)>(s: seq<T>, key: T -> K, v: K): (r: Option<nat>)
    ensures r.None? <==> !HasKey(s, key, v)
    ensures r.Some? ==> r.value < |s| && key(s[r.value]) == v
    ensures r.Some? ==> forall j :: 0 <= j < r.value ==> key(s[j]) != v
  {
    if s == [] then None
    else if key(s[0]) == v then Some(0)
    else match IndexOfKey(s[1..], key, v)
      case None => None
      case Some(i) => Some(i + 1)
  }

  /** `s.find(x => key(x) === v)`: the first element with key `v`. */
  function FindByKey<T, K(==)>(s: seq<T>, key: T -> K, v: K): (r: Option<T>)
    ensures r.None? <==> !HasKey(s, key, v)
    ensures r.Some? ==> r.value in s && key(r.value) == v
    ensures r.Some? ==> IndexOfKey(s, key, v).Some? && r.value == s[IndexOfKey(s, key, v).value]
  {
    match IndexOfKey(s, key, v)
    case None => None
    case Some(i) => Some(s[i])
  }

  /** No two elements share a key. */
  ghost predicate DistinctBy<T, K>(s: seq<T>, key: T -> K) {
    forall i, j :: 0 <= i < j < |s| ==> key(s[i]) != key(s[j])
  }

  /** Filtering distributes over concatenation, so it keeps relative order. */
  lemma {:induction false} FilterConcat<T>(a: seq<T>, b: seq<T>, keep: T -> bool)
    ensures Filter(a + b, keep) == Filter(a, keep) + Filter(b, keep)
  {
    if a == [] {
      assert a + b == b;
    } else {
      var head := if keep(a[0]) then [a[0]] else [];
      assert (a + b)[0] == a[0];
      assert (a + b)[1..] == a[1..] + b;
      FilterConcat(a[1..], b, keep);
      calc {
        Filter(a + b, keep);
        head + Filter(a[1..] + b, keep);
        head + (Filter(a[1..], keep) + Filter(b, keep));
        (head + Filter(a[1..], keep)) + Filter(b, keep);
        Filter(a, keep) + Filter(b, keep);
      }
    }
  }

  /** Mapping distributes over concatenation. */
  lemma MapConcat<T, U>(a: seq<T>, b: seq<T>, f: T -> U)
    ensures Map(a + b, f) == Map(a, f) + Map(b, f)
  {
    var l, r := Map(a + b, f), Map(a, f) + Map(b, f);
    forall i | 0 <= i < |l|
      ensures l[i] == r[i]
    {
      if i < |a| {
        assert (a + b)[i] == a[i];
      } else {
        assert (a + b)[i] == b[i - |a|];
      }
    }
  }

  /** Filtering a sequence whose every element is kept changes nothing. */
  lemma {:induction false} FilterKeepsAll<T>(s: seq<T>, keep: T -> bool)
    requires forall i :: 0 <= i < |s| ==> keep(s[i])
    ensures Filter(s, keep) == s
  {
    if s != [] {
      FilterKeepsAll(s[1..], keep);
    }
  }

  /** Filtering keeps keys distinct. */
  lemma {:induction false} FilterDistinctBy<T, K>(s: seq<T>, keep: T -> bool, key: T -> K)
    requires DistinctBy(s, key)
    ensures DistinctBy(Filter(s, keep), key)
  {
    if s != [] {
      FilterDistinctBy(s[1..], keep, key);
      FilterMembers(s[1..], keep);
      var rest := Filter(s[1..], keep);
      forall i | 0 <= i < |rest|
        ensures key(rest[i]) != key(s[0])
      {
        var j :| 0 <= j < |s[1..]| && s[1..][j] == rest[i];
        assert s[j + 1] == rest[i];
      }
    }
  }

  /** On a sequence with distinct keys, removing a present key deletes exactly
      the one element at its position and keeps the rest in order. */
  lemma {:induction false} WithoutDistinctAt<T, K>(s: seq<T>, key: T -> K, k: nat)
    requires DistinctBy(s, key) && k < |s|
    ensures Without(s, key, key(s[k])) == s[..k] + s[k + 1..]
  {
    var v := key(s[k]);
    var keep := x => key(x) != v;
    var tail := s[1..];
    assert DistinctBy(tail, key) by {
      forall i, j | 0 <= i < j < |tail|
        ensures key(tail[i]) != key(tail[j])
      {
        assert tail[i] == s[i + 1] && tail[j] == s[j + 1];
      }
    }
    if k == 0 {
      forall i | 0 <= i < |tail|
        ensures keep(tail[i])
      {
        assert tail[i] == s[i + 1];
      }
      FilterKeepsAll(tail, keep);
      assert Filter(s, keep) == Filter(tail, keep);
    } else {
      assert key(s[0]) != key(s[k]);
      assert tail[k - 1] == s[k];
      WithoutDistinctAt(tail, key, k - 1);
      assert Filter(tail, keep) == tail[..k - 1] + tail[k..];
      calc {
        Filter(s, keep);
        [s[0]] + Filter(tail, keep);
        [s[0]] + (tail[..k - 1] + tail[k..]);
        { assert [s[0]] + tail[..k - 1] == s[..k]; assert tail[k..] == s[k + 1..]; }
        s[..k] + s[k + 1..];
      }
    }
  }

  /** Removing a key that is absent changes nothing. */
  lemma WithoutAbsent<T, K>(s: seq<T>, key: T -> K, v: K)
    requires !HasKey(s, key, v)
    ensures Without(s, key, v) == s
  {
    FilterKeepsAll(s, x => key(x) != v);
  }

  /** Removing a key keeps the remaining keys distinct. */
  lemma WithoutDistinctBy<T, K>(s: seq<T>, key: T -> K, v: K)
    requires DistinctBy(s, key)
    ensures DistinctBy(Without(s, key, v), key)
  {
    FilterDistinctBy(s, x => key(x) != v, key);
  }

  /** Appending an element adds exactly its key. */
  lemma HasKeyAppend<T, K>(s: seq<T>, x: T, key: T -> K, w: K)
    ensures HasKey(s + [x], key, w) <==> HasKey(s, key, w) || key(x) == w
  {
    var t := s + [x];
    assert t[|s|] == x;
    if HasKey(s, key, w) {
      var k :| 0 <= k < |s| && key(s[k]) == w;
      assert t[k] == s[k];
    }
    if HasKey(t, key, w) && key(x) != w {
      var k :| 0 <= k < |t| && key(t[k]) == w;
      assert t[k] == s[k];
    }
  }

  /** Prepending an element adds exactly its key. */
  lemma HasKeyPrepend<T, K>(x: T, s: seq<T>, key: T -> K, w: K)
    ensures HasKey([x] + s, key, w) <==> key(x) == w || HasKey(s, key, w)
  {
    var t := [x] + s;
    assert t[0] == x;
    if HasKey(s, key, w) {
      var k :| 0 <= k < |s| && key(s[k]) == w;
      assert t[k + 1] == s[k];
    }
    if HasKey(t, key, w) && key(x) != w {
      var k :| 0 <= k < |t| && key(t[k]) == w;
      assert t[k] == s[k - 1];
    }
  }

  /** Removing key `v` removes exactly that key. */
  lemma HasKeyWithout<T, K>(s: seq<T>, key: T -> K, v: K, w: K)
    ensures HasKey(Without(s, key, v), key, w) <==> HasKey(s, key, w) && w != v
  {
    var r := Without(s, key, v);
    WithoutMembers(s, key, v);
    if HasKey(s, key, w) && w != v {
      var k :| 0 <= k < |s| && key(s[k]) == w;
      assert s[k] in r;
      var i :| 0 <= i < |r| && r[i] == s[k];
    }
    if HasKey(r, key, w) {
      var i :| 0 <= i < |r| && key(r[i]) == w;
      assert r[i] in s;
      var k :| 0 <= k < |s| && s[k] == r[i];
    }
  }

  /** Appending an element with a new key keeps keys distinct. */
  lemma DistinctByAppend<T, K>(s: seq<T>, x: T, key: T -> K)
    requires DistinctBy(s, key) && !HasKey(s, key, key(x))
    ensures DistinctBy(s + [x], key)
  {
    var t := s + [x];
    forall i, j | 0 <= i < j < |t|
      ensures key(t[i]) != key(t[j])
    {
      assert t[i] == s[i];
      if j < |s| {
        assert t[j] == s[j];
      }
    }
  }
}
