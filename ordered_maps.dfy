/**
  PHP arrays as the code under study uses them: an insertion-ordered
  association from keys to values. `$a[$k] = $v` replaces the value of an
  existing key where it stands and appends a new key at the end;
  `unset($a[$k])` drops the key and keeps the order of the others.
 */
module OrderedMaps {
  import opened Wrappers

  type Assoc<K, V> = seq<(K, V)>

  predicate Distinct<T(==)>(s: seq<T>) {
    forall i, j :: 0 <= i < j < |s| ==> s[i] != s[j]
  }

  /** The keys, in array order. */
  function Keys<K, V>(a: Assoc<K, V>): (ks: seq<K>)
    ensures |ks| == |a|
  {
    if a == [] then [] else [a[0].0] + Keys(a[1..])
  }

  /** The values, in array order (what `foreach ($a as $v)` visits). */
  function Values<K, V>(a: Assoc<K, V>): (vs: seq<V>)
    ensures |vs| == |a|
  {
    if a == [] then [] else [a[0].1] + Values(a[1..])
  }

  /** `$a[$k]`: the value stored under `k`, if any. */
  function Get<K(==), V>(a: Assoc<K, V>, k: K): (r: Option<V>)
    ensures r.Some? <==> k in Keys(a)
    ensures r.Some? ==> (k, r.value) in a
  {
    if a == [] then None
    else if a[0].0 == k then Some(a[0].1)
    else Get(a[1..], k)
  }

  /** `$a[$k] = $v`. */
  function Put<K(==, !new), V>(a: Assoc<K, V>, k: K, v: V): (r: Assoc<K, V>)
    ensures Keys(r) == if k in Keys(a) then Keys(a) else Keys(a) + [k]
    ensures Get(r, k) == Some(v)
    ensures forall k' :: k' != k ==> Get(r, k') == Get(a, k')
  {
    if a == [] then [(k, v)]
    else if a[0].0 == k then
      assert ([(k, v)] + a[1..])[1..] == a[1..];
      [(k, v)] + a[1..]
    else
      var r := Put(a[1..], k, v);
      assert ([a[0]] + r)[1..] == r;
      assert Keys([a[0]] + r) == [a[0].0] + Keys(r);
      assert k in Keys(a) <==> k in Keys(a[1..]);
      [a[0]] + r
  }

  /** The elements of `s` that are not in `xs`, in their order in `s`. */
  function FilterOut<T(==)>(s: seq<T>, xs: seq<T>): seq<T>
  {
    if s == [] then [] else (if s[0] in xs then [] else [s[0]]) + FilterOut(s[1..], xs)
  }

  /** Filtering out `xs` and then `x` is filtering out `xs + [x]`. */
  lemma {:induction false} FilterOutSnoc<T>(s: seq<T>, xs: seq<T>, x: T)
    ensures FilterOut(FilterOut(s, xs), [x]) == FilterOut(s, xs + [x])
  {
    if s != [] {
      FilterOutSnoc(s[1..], xs, x);
      var t := FilterOut(s[1..], xs);
      assert s[0] in xs + [x] <==> s[0] in xs || s[0] == x;
      if s[0] in xs {
        assert FilterOut(s, xs) == t;
      } else {
        assert FilterOut(s, xs) == [s[0]] + t;
        assert ([s[0]] + t)[1..] == t;
      }
    }
  }

  /** Filtering out nothing keeps everything. */
  lemma {:induction false} FilterOutNothing<T>(s: seq<T>)
    ensures FilterOut(s, []) == s
  {
    if s != [] {
      FilterOutNothing(s[1..]);
      assert s == [s[0]] + s[1..];
    }
  }

  /** `unset($a[$k])`. */
  function Remove<K(==, !new), V>(a: Assoc<K, V>, k: K): (r: Assoc<K, V>)
    ensures |r| <= |a|
    ensures Keys(r) == FilterOut(Keys(a), [k])
    ensures forall x :: x in Keys(r) <==> x in Keys(a) && x != k
    ensures Get(r, k) == None
    ensures forall k' :: k' != k ==> Get(r, k') == Get(a, k')
  {
    if a == [] then []
    else if a[0].0 == k then Remove(a[1..], k)
    else
      var r := Remove(a[1..], k);
      assert ([a[0]] + r)[1..] == r;
      [a[0]] + r
  }

  lemma DistinctCons<T>(x: T, s: seq<T>)
    requires x !in s && Distinct(s)
    ensures Distinct([x] + s)
  {
    forall i, j | 0 <= i < j < |[x] + s| ensures ([x] + s)[i] != ([x] + s)[j] {
      if i > 0 { assert ([x] + s)[i] == s[i - 1]; }
      assert ([x] + s)[j] == s[j - 1];
    }
  }

  /** `unset` never makes two entries share a key. */
  lemma {:induction false} RemoveKeepsDistinct<K(!new), V>(a: Assoc<K, V>, k: K)
    requires Distinct(Keys(a))
    ensures Distinct(Keys(Remove(a, k)))
  {
    if a != [] {
      assert Keys(a[1..]) == Keys(a)[1..];
      RemoveKeepsDistinct(a[1..], k);
      if a[0].0 != k {
        var r := Remove(a[1..], k);
        assert ([a[0]] + r)[1..] == r;
        assert Keys([a[0]] + r) == [a[0].0] + Keys(r);
        forall j | 0 <= j < |Keys(a[1..])| ensures Keys(a[1..])[j] != a[0].0 {
          assert Keys(a)[0] == a[0].0;
          assert Keys(a[1..])[j] == Keys(a)[j + 1];
        }
        DistinctCons(a[0].0, Keys(r));
      }
    }
  }

  /** The elements of `s` in the order of their first occurrence, each once. */
  function FirstOccurrences<T(==, !new)>(s: seq<T>): (r: seq<T>)
    ensures Distinct(r)
    ensures forall x :: x in r <==> x in s
    ensures |r| <= |s|
  {
    if s == [] then []
    else
      var d := FirstOccurrences(s[..|s| - 1]);
      if s[|s| - 1] in d then d else d + [s[|s| - 1]]
  }

  /** Adding one key at a time keeps the keys in first-insertion order. */
  lemma PutKeepsFirstOccurrences<K(!new), V>(a: Assoc<K, V>, ks: seq<K>, k: K, v: V)
    requires Keys(a) == FirstOccurrences(ks)
    ensures Keys(Put(a, k, v)) == FirstOccurrences(ks + [k])
  {
    assert (ks + [k])[..|ks + [k]| - 1] == ks;
  }
}
