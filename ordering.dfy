/** Python's ordering of `str` values (lexicographic by code point) and
    `sorted()` over the distinct keys of a dictionary. */
module Ordering {

  /** `a < b` on Python strings. */
  predicate Less(a: string, b: string)
    decreases |a|
  {
    if a == [] then b != []
    else if b == [] then false
    else if a[0] == b[0] then Less(a[1..], b[1..])
    else a[0] < b[0]
  }

  lemma {:induction false} LessIrreflexive(a: string)
    ensures !Less(a, a)
    decreases |a|
  {
    if a != [] {
      LessIrreflexive(a[1..]);
    }
  }

  lemma {:induction false} LessTransitive(a: string, b: string, c: string)
    requires Less(a, b) && Less(b, c)
    ensures Less(a, c)
    decreases |a|
  {
    if a != [] && b != [] && c != [] && a[0] == b[0] == c[0] {
      LessTransitive(a[1..], b[1..], c[1..]);
    }
  }

  lemma {:induction false} LessTotal(a: string, b: string)
    requires a != b
    ensures Less(a, b) || Less(b, a)
    decreases |a|
  {
    if a != [] && b != [] && a[0] == b[0] {
      assert a == [a[0]] + a[1..] && b == [b[0]] + b[1..];
      LessTotal(a[1..], b[1..]);
    }
  }

  /** Every element is below every later one (so no element repeats). */
  ghost predicate Increasing(s: seq<string>) {
    forall i, j :: 0 <= i < j < |s| ==> Less(s[i], s[j])
  }

  ghost predicate Distinct(s: seq<string>) {
    forall i, j :: 0 <= i < j < |s| ==> s[i] != s[j]
  }

  /** Insert `x` before the first element not below it. */
  function Insert(x: string, s: seq<string>): seq<string>
  {
    if s == [] then [x]
    else if !Less(s[0], x) then [x] + s
    else [s[0]] + Insert(x, s[1..])
  }

  /** Inserting adds `x` and loses nothing. */
  lemma {:induction false} InsertPermutes(x: string, s: seq<string>)
    ensures multiset(Insert(x, s)) == multiset(s) + multiset{x}
  {
    if s != [] && Less(s[0], x) {
      InsertPermutes(x, s[1..]);
      assert s == [s[0]] + s[1..];
    }
  }

  /** An element below every element of an increasing sequence may go first. */
  lemma ConsIncreasing(y: string, t: seq<string>)
    requires Increasing(t) && forall e | e in t :: Less(y, e)
    ensures Increasing([y] + t)
  {
    var r := [y] + t;
    forall i, j | 0 <= i < j < |r| ensures Less(r[i], r[j]) {
      assert r[j] == t[j - 1] && r[j] in t;
      if i > 0 {
        assert r[i] == t[i - 1];
      }
    }
  }

  /** Inserting a new element keeps the sequence increasing. */
  lemma {:induction false} InsertOrdered(x: string, s: seq<string>)
    requires Increasing(s) && x !in s
    ensures Increasing(Insert(x, s))
  {
    if s == [] {
    } else if !Less(s[0], x) {
      LessTotal(x, s[0]);
      forall e | e in s ensures Less(x, e) {
        var k :| 0 <= k < |s| && s[k] == e;
        if k > 0 {
          LessTransitive(x, s[0], e);
        }
      }
      ConsIncreasing(x, s);
    } else {
      var rest := s[1..];
      var t := Insert(x, rest);
      assert s == [s[0]] + rest;
      assert Increasing(rest) && x !in rest;
      InsertOrdered(x, rest);
      InsertPermutes(x, rest);
      forall e | e in t ensures Less(s[0], e) {
        assert e in multiset(t);
        if e != x {
          var k :| 0 <= k < |rest| && rest[k] == e;
          assert s[k + 1] == e;
        }
      }
      ConsIncreasing(s[0], t);
    }
  }

  /** `sorted(keys)`: the keys in increasing order. */
  function SortedKeys(keys: seq<string>): seq<string>
  {
    if keys == [] then [] else Insert(keys[0], SortedKeys(keys[1..]))
  }

  /** Sorting neither adds nor loses a key. */
  lemma {:induction false} SortedKeysPermutes(keys: seq<string>)
    ensures multiset(SortedKeys(keys)) == multiset(keys)
  {
    if keys != [] {
      SortedKeysPermutes(keys[1..]);
      InsertPermutes(keys[0], SortedKeys(keys[1..]));
      assert keys == [keys[0]] + keys[1..];
    }
  }

  /** Sorting distinct keys lists them in increasing order. */
  lemma {:induction false} SortedKeysIncreasing(keys: seq<string>)
    requires Distinct(keys)
    ensures Increasing(SortedKeys(keys))
  {
    if keys != [] {
      SortedKeysIncreasing(keys[1..]);
      SortedKeysPermutes(keys[1..]);
      assert keys == [keys[0]] + keys[1..];
      assert keys[0] !in multiset(keys[1..]);
      InsertOrdered(keys[0], SortedKeys(keys[1..]));
    }
  }
}
