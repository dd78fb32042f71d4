/** Python dictionaries as the comparison engine uses them: a finite map whose
    keys remember the order in which they were first inserted. */
module Dicts {

  datatype Dict<K(==), V> = Dict(keys: seq<K>, m: map<K, V>)

  /** No key is listed twice, every listed key is in the map, and there are
      as many listed keys as map keys (so the listed keys are exactly the
      map's keys, see `ListedKeysComplete`). */
  ghost predicate Valid<K, V>(d: Dict<K, V>) {
    && (forall i, j :: 0 <= i < j < |d.keys| ==> d.keys[i] != d.keys[j])
    && |d.keys| == |d.m|
    && (forall i | 0 <= i < |d.keys| :: d.keys[i] in d.m)
  }

  lemma {:induction false} SubsetCard<T>(a: set<T>, b: set<T>)
    requires a <= b
    ensures |a| <= |b|
    decreases |a|
  {
    if a != {} {
      var x :| x in a;
      SubsetCard(a - {x}, b - {x});
    }
  }

  lemma {:induction false} DistinctCard<T>(s: seq<T>)
    requires forall i, j :: 0 <= i < j < |s| ==> s[i] != s[j]
    ensures |set i | 0 <= i < |s| :: s[i]| == |s|
  {
    if s != [] {
      var t := s[1..];
      DistinctCard(t);
      var st := set i | 0 <= i < |t| :: t[i];
      assert (set i | 0 <= i < |s| :: s[i]) == {s[0]} + st by {
        forall x | x in st ensures x in set i | 0 <= i < |s| :: s[i] {
          var i :| 0 <= i < |t| && t[i] == x;
          assert s[i + 1] == x;
        }
      }
      assert s[0] !in st;
    }
  }

  /** Every key of the map is listed. */
  lemma ListedKeysComplete<K, V>(d: Dict<K, V>)
    requires Valid(d)
    ensures forall k | k in d.m :: k in d.keys
  {
    var listed := set i | 0 <= i < |d.keys| :: d.keys[i];
    DistinctCard(d.keys);
    forall k | k in d.m ensures k in d.keys {
      if k !in listed {
        SubsetCard(listed, d.m.Keys - {k});
        assert false;
      }
    }
  }

  function Empty<K(==), V>(): (r: Dict<K, V>)
    ensures Valid(r) && r.keys == [] && r.m == map[]
  {
    Dict([], map[])
  }

  /** A well-formed dictionary without entries is the empty one. */
  lemma EmptyMapEmpty<K, V>(d: Dict<K, V>)
    requires Valid(d) && d.m.Keys == {}
    ensures d == Empty()
  {
    assert |d.m.Keys| == 0;
  }

  /** `d[k] = v`: a new key goes to the end of the order; a key already
      present keeps its place and takes the new value. */
  function Put<K(==), V>(d: Dict<K, V>, k: K, v: V): (r: Dict<K, V>)
    ensures r.m == d.m[k := v]
    ensures r.keys == if k in d.m then d.keys else d.keys + [k]
    ensures Valid(d) ==> Valid(r)
  {
    if k in d.m then Dict(d.keys, d.m[k := v]) else Dict(d.keys + [k], d.m[k := v])
  }

  /** The first `n` of `keys` that are in `allowed`, in their order. */
  function Filter<K(==)>(keys: seq<K>, n: nat, allowed: set<K>): (r: seq<K>)
    requires n <= |keys|
    ensures forall i | 0 <= i < |r| :: r[i] in allowed
  {
    if n == 0 then []
    else Filter(keys, n - 1, allowed) + (if keys[n - 1] in allowed then [keys[n - 1]] else [])
  }

  /** The dictionary a `for key in keys: if key in allowed: r[key] = src[key]`
      loop has built after its first `n` rounds. */
  function Restrict<K(==), V>(keys: seq<K>, n: nat, allowed: set<K>, src: map<K, V>): (r: Dict<K, V>)
    requires n <= |keys| && allowed <= src.Keys
  {
    if n == 0 then Empty()
    else
      var k := keys[n - 1];
      var prefix := Restrict(keys, n - 1, allowed, src);
      if k in allowed then Put(prefix, k, src[k]) else prefix
  }

  /** What that loop builds from distinct keys: a well-formed dictionary of
      the allowed keys seen so far, in their order, each with its value in
      `src`. */
  lemma {:induction false} RestrictSpec<K, V>(keys: seq<K>, n: nat, allowed: set<K>, src: map<K, V>)
    requires n <= |keys| && allowed <= src.Keys
    requires forall i, j :: 0 <= i < j < |keys| ==> keys[i] != keys[j]
    ensures Valid(Restrict(keys, n, allowed, src))
    ensures Restrict(keys, n, allowed, src).keys == Filter(keys, n, allowed)
    ensures forall k | k in Restrict(keys, n, allowed, src).m ::
              k in allowed && Restrict(keys, n, allowed, src).m[k] == src[k]
    ensures forall i | 0 <= i < n && keys[i] in allowed :: keys[i] in Restrict(keys, n, allowed, src).m
    ensures forall j | n <= j < |keys| :: keys[j] !in Restrict(keys, n, allowed, src).m
  {
    if n > 0 {
      RestrictSpec(keys, n - 1, allowed, src);
    }
  }
}
