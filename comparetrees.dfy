/** The headline-based comparison of two subtrees (`compareTrees`): each
    subtree is indexed by normalised headline (`scan`), the two indexes are
    compared key by key in sorted order (`compare`), and one report node
    lists what differs (`run`). */
module CompareTrees {
  import opened Dicts
  import opened Outline
  import opened Text
  import opened Ordering
  import opened ChangeSet
  import opened Report

  /** A dictionary from normalised headline to (the vnode of) a position. */
  type HeadIndex = Dict<string, NodeId>

  ghost predicate HeadIndexIn(nodes: seq<VNode>, d: HeadIndex) {
    Valid(d) && forall k | k in d.m :: d.m[k] < |nodes|
  }

  /** The key `scan` files a headline under: the headline stripped, and when
      it holds a `.`, the stripped text after its first `.`. */
  function HeadKey(h: string): (k: string)
    ensures k == [] || (!IsSpace(k[0]) && !IsSpace(k[|k| - 1]))
  {
    var s := Strip(h);
    var i := Find(s, '.');
    if i > -1 then Strip(s[i + 1..]) else s
  }

  /** The key is what follows the first `.` of the stripped headline, as
      `split('.', 1)` cuts it, or the whole stripped headline. */
  lemma HeadKeySplit(h: string)
    ensures HeadKey(h) == match SplitOnce(Strip(h), '.') {
              case NoSeparator => Strip(h)
              case Halves(_, after) => Strip(after)
            }
  {
    var s := Strip(h);
    var i := Find(s, '.');
    if i > -1 {
      assert SplitOnce(s, '.') == Halves(s[..i], s[i + 1..]);
    }
  }

  /** A qualified name `cls.name` is filed under `name`. */
  lemma HeadKeyQualified(cls: string, name: string)
    requires cls != [] && !IsSpace(cls[0]) && '.' !in cls
    requires name != [] && !IsSpace(name[0]) && !IsSpace(name[|name| - 1])
    ensures HeadKey(cls + "." + name) == name
  {
    var h := cls + "." + name;
    assert h[0] == cls[0] && h[|h| - 1] == name[|name| - 1];
    StripTrimmed(h);
    StripTrimmed(name);
    SplitOnceJoin(cls, '.', name);
    HeadKeySplit(h);
  }

  /** A trimmed headline without a `.` is its own key. */
  lemma HeadKeyPlain(h: string)
    requires h == [] || (!IsSpace(h[0]) && !IsSpace(h[|h| - 1]))
    requires '.' !in h
    ensures HeadKey(h) == h
  {
    StripTrimmed(h);
  }

  /** The keys of the positions `ps`, in visiting order. */
  function HeadKeysOf(nodes: seq<VNode>, ps: seq<NodeId>): (ks: seq<string>)
    requires InArena(nodes, ps)
    ensures |ks| == |ps| && forall i :: 0 <= i < |ps| ==> ks[i] == HeadKey(nodes[ps[i]].h)
  {
    seq(|ps|, i requires 0 <= i < |ps| => HeadKey(nodes[ps[i]].h))
  }

  /** The dictionary `scan` has built after visiting the first `n` of the
      positions `ps`, whose keys are `ks`: a key already present keeps its
      first position. */
  function ScanOf(ks: seq<string>, ps: seq<NodeId>, n: nat): (d: HeadIndex)
    requires |ks| == |ps| && n <= |ps|
    ensures Valid(d)
  {
    if n == 0 then Empty()
    else
      var d := ScanOf(ks, ps, n - 1);
      if ks[n - 1] in d.m then d else Put(d, ks[n - 1], ps[n - 1])
  }

  /** Every visited key has an entry. */
  lemma {:induction false} ScanVisited(ks: seq<string>, ps: seq<NodeId>, n: nat)
    requires |ks| == |ps| && n <= |ps|
    ensures forall i | 0 <= i < n :: ks[i] in ScanOf(ks, ps, n).m
  {
    if n > 0 {
      ScanVisited(ks, ps, n - 1);
    }
  }

  /** No other key has one, and each entry is a position visited with its key. */
  lemma {:induction false} ScanOnlyVisited(ks: seq<string>, ps: seq<NodeId>, n: nat)
    requires |ks| == |ps| && n <= |ps|
    ensures forall k | k in ScanOf(ks, ps, n).m :: exists i | 0 <= i < n :: ks[i] == k && ScanOf(ks, ps, n).m[k] == ps[i]
  {
    if n > 0 {
      ScanOnlyVisited(ks, ps, n - 1);
      var d0, d := ScanOf(ks, ps, n - 1), ScanOf(ks, ps, n);
      forall x | x in d.m ensures exists i | 0 <= i < n :: ks[i] == x && d.m[x] == ps[i] {
        if x in d0.m {
          var i :| 0 <= i < n - 1 && ks[i] == x && d0.m[x] == ps[i];
          assert d.m[x] == ps[i];
        } else {
          assert ks[n - 1] == x && d.m[x] == ps[n - 1];
        }
      }
    }
  }

  /** The entry of a key is the first position visited with it: later
      duplicates are not stored. */
  lemma {:induction false} ScanFirstWins(ks: seq<string>, ps: seq<NodeId>, n: nat)
    requires |ks| == |ps| && n <= |ps|
    ensures forall i | 0 <= i < n && (forall j | 0 <= j < i :: ks[j] != ks[i]) ::
              ks[i] in ScanOf(ks, ps, n).m && ScanOf(ks, ps, n).m[ks[i]] == ps[i]
  {
    if n > 0 {
      ScanFirstWins(ks, ps, n - 1);
      ScanOnlyVisited(ks, ps, n - 1);
      var d0, d := ScanOf(ks, ps, n - 1), ScanOf(ks, ps, n);
      var k := ks[n - 1];
      forall i | 0 <= i < n && (forall j | 0 <= j < i :: ks[j] != ks[i])
        ensures ks[i] in d.m && d.m[ks[i]] == ps[i]
      {
        if i < n - 1 {
          assert ks[i] in d0.m && d0.m[ks[i]] == ps[i];
          if k in d0.m {
            assert d == d0;
          } else {
            assert ks[i] != k;
          }
        } else {
          assert k !in d0.m;
        }
      }
    }
  }

  /** Each entry of the dictionary of a tree is a vnode of the tree whose
      headline has the entry's key. */
  lemma ScanEntries(nodes: seq<VNode>, ps: seq<NodeId>)
    requires InArena(nodes, ps)
    ensures var d := ScanOf(HeadKeysOf(nodes, ps), ps, |ps|);
            forall k | k in d.m :: d.m[k] in ps && HeadKey(nodes[d.m[k]].h) == k
  {
    var ks := HeadKeysOf(nodes, ps);
    ScanOnlyVisited(ks, ps, |ps|);
  }

  /** One visit of the loop in `scan`: a key already present is a duplicate
      and is not stored. */
  method ScanStep(nodes: seq<VNode>, ps: seq<NodeId>, i: nat, d: HeadIndex, ghost ks: seq<string>)
    returns (d': HeadIndex)
    requires InArena(nodes, ps) && i < |ps| && ks == HeadKeysOf(nodes, ps) && d == ScanOf(ks, ps, i)
    ensures d' == ScanOf(ks, ps, i + 1)
  {
    var k := HeadKey(nodes[ps[i]].h);
    d' := d;
    if k !in d.m {
      d' := Put(d, k, ps[i]);
    }
  }

  /** `scan(p)`: the first position of the tree at `p` for every key. */
  method Scan(nodes: seq<VNode>, ghost rank: seq<nat>, p: NodeId) returns (d: HeadIndex)
    requires Ranked(nodes, rank) && p < |nodes|
    ensures d == ScanTree(nodes, rank, p)
  {
    var ps := Subtree(nodes, rank, p);
    d := ScanPositions(nodes, ps);
  }

  /** The loop of `scan` over the positions `ps`. */
  method ScanPositions(nodes: seq<VNode>, ps: seq<NodeId>) returns (d: HeadIndex)
    requires InArena(nodes, ps)
    ensures d == ScanOf(HeadKeysOf(nodes, ps), ps, |ps|)
  {
    ghost var ks := HeadKeysOf(nodes, ps);
    d := Empty();
    for i := 0 to |ps|
      invariant d == ScanOf(ks, ps, i)
    {
      d := ScanStep(nodes, ps, i, d, ks);
    }
  }

  /** The dictionary of the tree at `p`. */
  ghost function ScanTree(nodes: seq<VNode>, rank: seq<nat>, p: NodeId): (d: HeadIndex)
    requires Ranked(nodes, rank) && p < |nodes|
  {
    var ps := Subtree(nodes, rank, p);
    ScanOf(HeadKeysOf(nodes, ps), ps, |ps|)
  }

  /** Every position in the dictionary of a tree is a vnode of that tree
      whose headline gives its key. */
  lemma ScanTreeIn(nodes: seq<VNode>, rank: seq<nat>, p: NodeId)
    requires Ranked(nodes, rank) && p < |nodes|
    ensures var d := ScanTree(nodes, rank, p);
            && HeadIndexIn(nodes, d)
            && forall k | k in d.m :: d.m[k] in Subtree(nodes, rank, p) && HeadKey(nodes[d.m[k]].h) == k
  {
    var ps := Subtree(nodes, rank, p);
    var d := ScanTree(nodes, rank, p);
    assert d == ScanOf(HeadKeysOf(nodes, ps), ps, |ps|);
    ScanEntries(nodes, ps);
    forall k | k in d.m ensures d.m[k] < |nodes| {
      assert d.m[k] in ps;
    }
  }

  /** What `run` lists for the trees of `p1` and `p2`. */
  ghost function TreesPlan(nodes: seq<VNode>, rank: seq<nat>, p1: NodeId, p2: NodeId,
                           diff: (string, string) -> seq<string>): seq<Entry>
    requires Ranked(nodes, rank) && p1 < |nodes| && p2 < |nodes|
  {
    ScanTreeIn(nodes, rank, p1);
    ScanTreeIn(nodes, rank, p2);
    ComparePlan(nodes, ScanTree(nodes, rank, p1), ScanTree(nodes, rank, p2), diff)
  }

  /** Sorting the keys of a dictionary lists each key once, in increasing order. */
  lemma SortedKeysOf(d: HeadIndex)
    requires Valid(d)
    ensures forall k :: k in SortedKeys(d.keys) <==> k in d.m
    ensures Increasing(SortedKeys(d.keys))
  {
    ListedKeysComplete(d);
    SortedKeysPermutes(d.keys);
    SortedKeysIncreasing(d.keys);
    forall k ensures k in SortedKeys(d.keys) <==> k in d.keys {
      assert k in SortedKeys(d.keys) <==> k in multiset(SortedKeys(d.keys));
    }
  }

  /** The headline of a report node: the key itself, or the key of a node
      found on one side only together with that node's headline. */
  datatype Title = Key(k: string) | OnlyIn(k: string, h: string)

  function TitleText(t: Title): string {
    match t
    case Key(k) => k
    case OnlyIn(k, h) => k + "(" + h + " only)"
  }

  /** A node of the report: the dictionary key it stands for, its title, the
      diff lines that make its body and the vnodes cloned under it. */
  datatype Entry = Entry(key: string, title: Title, lines: seq<string>, clones: seq<NodeId>)

  function Side(d1: HeadIndex, d2: HeadIndex, first: bool): HeadIndex {
    if first then d1 else d2
  }

  /** What `compare` appends for key `k` of `d1` (first pass) or of `d2`
      (second pass), given the unified diff `diff` of two bodies: on both
      sides, a node titled `k` holding the diff and clones of both positions
      when the diff is not empty; on one side only, a node titled
      `k(<headline> only)` holding one clone when the body is not blank. */
  function Emit(nodes: seq<VNode>, d1: HeadIndex, d2: HeadIndex, diff: (string, string) -> seq<string>,
                first: bool, k: string): (r: seq<Entry>)
    requires HeadIndexIn(nodes, d1) && HeadIndexIn(nodes, d2) && k in Side(d1, d2, first).m
  {
    if first then
      var p1 := d1.m[k];
      if k in d2.m then
        var lines := diff(nodes[p1].b, nodes[d2.m[k]].b);
        if lines != [] then [Entry(k, Key(k), lines, [p1, d2.m[k]])] else []
      else if !IsBlank(nodes[p1].b) then [Entry(k, OnlyIn(k, nodes[p1].h), [], [p1])]
      else []
    else
      var p2 := d2.m[k];
      if k !in d1.m && !IsBlank(nodes[p2].b) then [Entry(k, OnlyIn(k, nodes[p2].h), [], [p2])]
      else []
  }

  /** At most one entry is emitted per key, for that key; it clones the
      position of the key on the side being scanned, and the position on
      the other side only when the key is on both; the second pass emits
      only keys missing from `d1`. */
  lemma EmitShape(nodes: seq<VNode>, d1: HeadIndex, d2: HeadIndex, diff: (string, string) -> seq<string>,
                  first: bool, k: string)
    requires HeadIndexIn(nodes, d1) && HeadIndexIn(nodes, d2) && k in Side(d1, d2, first).m
    ensures var r := Emit(nodes, d1, d2, diff, first, k);
            && |r| <= 1
            && (forall e | e in r :: e.key == k && 1 <= |e.clones| <= 2 && e.clones[0] == Side(d1, d2, first).m[k])
            && (forall e | e in r && |e.clones| == 2 :: k in d2.m && e.clones[1] == d2.m[k])
            && (forall e | e in r :: first || k !in d1.m)
  {
  }

  ghost predicate KeysIn(d: HeadIndex, keys: seq<string>) {
    forall i | 0 <= i < |keys| :: keys[i] in d.m
  }

  /** The entries of one pass over the first `n` of `keys`. */
  function Pass(nodes: seq<VNode>, d1: HeadIndex, d2: HeadIndex, diff: (string, string) -> seq<string>,
                first: bool, keys: seq<string>, n: nat): seq<Entry>
    requires HeadIndexIn(nodes, d1) && HeadIndexIn(nodes, d2)
    requires KeysIn(Side(d1, d2, first), keys) && n <= |keys|
  {
    if n == 0 then [] else Pass(nodes, d1, d2, diff, first, keys, n - 1) + Emit(nodes, d1, d2, diff, first, keys[n - 1])
  }

  /** Everything `compare(d1, d2, ...)` appends under the report root, in
      order: the first pass over the sorted keys of `d1`, then the second
      pass over the sorted keys of `d2`. */
  function ComparePlan(nodes: seq<VNode>, d1: HeadIndex, d2: HeadIndex, diff: (string, string) -> seq<string>)
    : seq<Entry>
    requires HeadIndexIn(nodes, d1) && HeadIndexIn(nodes, d2)
  {
    SortedKeysOf(d1);
    SortedKeysOf(d2);
    var ks1, ks2 := SortedKeys(d1.keys), SortedKeys(d2.keys);
    Pass(nodes, d1, d2, diff, true, ks1, |ks1|) + Pass(nodes, d1, d2, diff, false, ks2, |ks2|)
  }

  /** A pass holds only entries its keys emit. */
  lemma {:induction false} PassOnlyEmitted(nodes: seq<VNode>, d1: HeadIndex, d2: HeadIndex,
                                           diff: (string, string) -> seq<string>, first: bool, keys: seq<string>, n: nat)
    requires HeadIndexIn(nodes, d1) && HeadIndexIn(nodes, d2)
    requires KeysIn(Side(d1, d2, first), keys) && n <= |keys|
    ensures forall e | e in Pass(nodes, d1, d2, diff, first, keys, n) ::
              (exists a | 0 <= a < n :: keys[a] == e.key) && Emit(nodes, d1, d2, diff, first, e.key) == [e]
  {
    if n > 0 {
      PassOnlyEmitted(nodes, d1, d2, diff, first, keys, n - 1);
      var r0 := Pass(nodes, d1, d2, diff, first, keys, n - 1);
      var es := Emit(nodes, d1, d2, diff, first, keys[n - 1]);
      assert Pass(nodes, d1, d2, diff, first, keys, n) == r0 + es;
      forall e: Entry | e in r0 + es
        ensures (exists a | 0 <= a < n :: keys[a] == e.key) && Emit(nodes, d1, d2, diff, first, e.key) == [e]
      {
        if e in r0 {
          var a :| 0 <= a < n - 1 && keys[a] == e.key;
        } else {
          assert e.key == keys[n - 1] && es == [e];
        }
      }
    }
  }

  /** A pass holds every entry its keys emit. */
  lemma {:induction false} PassAllEmitted(nodes: seq<VNode>, d1: HeadIndex, d2: HeadIndex,
                                          diff: (string, string) -> seq<string>, first: bool, keys: seq<string>, n: nat)
    requires HeadIndexIn(nodes, d1) && HeadIndexIn(nodes, d2)
    requires KeysIn(Side(d1, d2, first), keys) && n <= |keys|
    ensures forall i | 0 <= i < n && Emit(nodes, d1, d2, diff, first, keys[i]) != [] ::
              Emit(nodes, d1, d2, diff, first, keys[i])[0] in Pass(nodes, d1, d2, diff, first, keys, n)
  {
    if n > 0 {
      PassAllEmitted(nodes, d1, d2, diff, first, keys, n - 1);
      var r0 := Pass(nodes, d1, d2, diff, first, keys, n - 1);
      var es := Emit(nodes, d1, d2, diff, first, keys[n - 1]);
      assert Pass(nodes, d1, d2, diff, first, keys, n) == r0 + es;
      forall i | 0 <= i < n && Emit(nodes, d1, d2, diff, first, keys[i]) != []
        ensures Emit(nodes, d1, d2, diff, first, keys[i])[0] in r0 + es
      {
        if i < n - 1 {
          assert Emit(nodes, d1, d2, diff, first, keys[i])[0] in r0;
        } else {
          assert es[0] in es;
        }
      }
    }
  }

  /** The entries `r` are listed by increasing key. */
  ghost predicate ByKey(r: seq<Entry>) {
    forall i, j | 0 <= i < j < |r| :: Less(r[i].key, r[j].key)
  }

  /** Over increasing keys, a pass lists its entries by increasing key. */
  lemma {:induction false} PassOrdered(nodes: seq<VNode>, d1: HeadIndex, d2: HeadIndex,
                                       diff: (string, string) -> seq<string>, first: bool, keys: seq<string>, n: nat)
    requires HeadIndexIn(nodes, d1) && HeadIndexIn(nodes, d2)
    requires KeysIn(Side(d1, d2, first), keys) && n <= |keys| && Increasing(keys)
    ensures ByKey(Pass(nodes, d1, d2, diff, first, keys, n))
  {
    if n > 0 {
      PassOrdered(nodes, d1, d2, diff, first, keys, n - 1);
      PassOnlyEmitted(nodes, d1, d2, diff, first, keys, n - 1);
      var r0 := Pass(nodes, d1, d2, diff, first, keys, n - 1);
      var es := Emit(nodes, d1, d2, diff, first, keys[n - 1]);
      var r := r0 + es;
      assert Pass(nodes, d1, d2, diff, first, keys, n) == r;
      forall i, j | 0 <= i < j < |r| ensures Less(r[i].key, r[j].key) {
        if j >= |r0| {
          assert r[j] == es[j - |r0|] && r[j].key == keys[n - 1];
          assert r[i] == r0[i] && r0[i] in r0;
          var a :| 0 <= a < n - 1 && keys[a] == r[i].key;
          assert Less(keys[a], keys[n - 1]);
        } else {
          assert ByKey(r0) && r[i] == r0[i] && r[j] == r0[j];
        }
      }
    }
  }

  /** Every entry of the report is one that a key of either pass emits. */
  lemma PlanOnlyEmitted(nodes: seq<VNode>, d1: HeadIndex, d2: HeadIndex, diff: (string, string) -> seq<string>)
    requires HeadIndexIn(nodes, d1) && HeadIndexIn(nodes, d2)
    ensures forall e: Entry | e in ComparePlan(nodes, d1, d2, diff) ::
              || (e.key in d1.m && Emit(nodes, d1, d2, diff, true, e.key) == [e])
              || (e.key in d2.m && Emit(nodes, d1, d2, diff, false, e.key) == [e])
  {
    SortedKeysOf(d1);
    SortedKeysOf(d2);
    var ks1, ks2 := SortedKeys(d1.keys), SortedKeys(d2.keys);
    var r1 := Pass(nodes, d1, d2, diff, true, ks1, |ks1|);
    var r2 := Pass(nodes, d1, d2, diff, false, ks2, |ks2|);
    assert ComparePlan(nodes, d1, d2, diff) == r1 + r2;
    PassOnlyEmitted(nodes, d1, d2, diff, true, ks1, |ks1|);
    PassOnlyEmitted(nodes, d1, d2, diff, false, ks2, |ks2|);
    forall e: Entry | e in r1 + r2
      ensures || (e.key in d1.m && Emit(nodes, d1, d2, diff, true, e.key) == [e])
              || (e.key in d2.m && Emit(nodes, d1, d2, diff, false, e.key) == [e])
    {
      if e in r1 {
        var a :| 0 <= a < |ks1| && ks1[a] == e.key;
      } else {
        var a :| 0 <= a < |ks2| && ks2[a] == e.key;
      }
    }
  }

  /** Every entry a key of either pass emits is in the report. */
  lemma PlanAllEmitted(nodes: seq<VNode>, d1: HeadIndex, d2: HeadIndex, diff: (string, string) -> seq<string>)
    requires HeadIndexIn(nodes, d1) && HeadIndexIn(nodes, d2)
    ensures forall k | k in d1.m && Emit(nodes, d1, d2, diff, true, k) != [] ::
              Emit(nodes, d1, d2, diff, true, k)[0] in ComparePlan(nodes, d1, d2, diff)
    ensures forall k | k in d2.m && Emit(nodes, d1, d2, diff, false, k) != [] ::
              Emit(nodes, d1, d2, diff, false, k)[0] in ComparePlan(nodes, d1, d2, diff)
  {
    SortedKeysOf(d1);
    SortedKeysOf(d2);
    var ks1, ks2 := SortedKeys(d1.keys), SortedKeys(d2.keys);
    var r1 := Pass(nodes, d1, d2, diff, true, ks1, |ks1|);
    var r2 := Pass(nodes, d1, d2, diff, false, ks2, |ks2|);
    assert ComparePlan(nodes, d1, d2, diff) == r1 + r2;
    PassAllEmitted(nodes, d1, d2, diff, true, ks1, |ks1|);
    PassAllEmitted(nodes, d1, d2, diff, false, ks2, |ks2|);
    forall k | k in d1.m && Emit(nodes, d1, d2, diff, true, k) != []
      ensures Emit(nodes, d1, d2, diff, true, k)[0] in r1 + r2
    {
      assert k in ks1;
      var i :| 0 <= i < |ks1| && ks1[i] == k;
    }
    forall k | k in d2.m && Emit(nodes, d1, d2, diff, false, k) != []
      ensures Emit(nodes, d1, d2, diff, false, k)[0] in r1 + r2
    {
      assert k in ks2;
      var i :| 0 <= i < |ks2| && ks2[i] == k;
    }
  }

  /** A key on both sides is reported exactly when the diff of the two bodies
      is not empty, by a node titled with the key, holding the diff and clones
      of both positions. */
  lemma CompareBoth(nodes: seq<VNode>, d1: HeadIndex, d2: HeadIndex, diff: (string, string) -> seq<string>, k: string)
    requires HeadIndexIn(nodes, d1) && HeadIndexIn(nodes, d2) && k in d1.m && k in d2.m
    ensures var lines := diff(nodes[d1.m[k]].b, nodes[d2.m[k]].b);
            && ((exists e :: e in ComparePlan(nodes, d1, d2, diff) && e.key == k) <==> lines != [])
            && forall e | e in ComparePlan(nodes, d1, d2, diff) && e.key == k ::
                 e == Entry(k, Key(k), lines, [d1.m[k], d2.m[k]])
  {
    PlanOnlyEmitted(nodes, d1, d2, diff);
    PlanAllEmitted(nodes, d1, d2, diff);
    var lines := diff(nodes[d1.m[k]].b, nodes[d2.m[k]].b);
    if lines != [] {
      assert Emit(nodes, d1, d2, diff, true, k)[0] in ComparePlan(nodes, d1, d2, diff);
    }
  }

  /** A key only in `d1` is reported exactly when its body is not blank, by a
      node titled `k(<headline> only)` holding one clone. */
  lemma CompareOnlyFirst(nodes: seq<VNode>, d1: HeadIndex, d2: HeadIndex, diff: (string, string) -> seq<string>, k: string)
    requires HeadIndexIn(nodes, d1) && HeadIndexIn(nodes, d2) && k in d1.m && k !in d2.m
    ensures var p := d1.m[k];
            && ((exists e :: e in ComparePlan(nodes, d1, d2, diff) && e.key == k) <==> !IsBlank(nodes[p].b))
            && forall e | e in ComparePlan(nodes, d1, d2, diff) && e.key == k ::
                 e == Entry(k, OnlyIn(k, nodes[p].h), [], [p])
  {
    PlanOnlyEmitted(nodes, d1, d2, diff);
    PlanAllEmitted(nodes, d1, d2, diff);
    if !IsBlank(nodes[d1.m[k]].b) {
      assert Emit(nodes, d1, d2, diff, true, k)[0] in ComparePlan(nodes, d1, d2, diff);
    }
  }

  /** A key only in `d2` is reported exactly when its body is not blank, by a
      node titled `k(<headline> only)` holding one clone. */
  lemma CompareOnlySecond(nodes: seq<VNode>, d1: HeadIndex, d2: HeadIndex, diff: (string, string) -> seq<string>, k: string)
    requires HeadIndexIn(nodes, d1) && HeadIndexIn(nodes, d2) && k !in d1.m && k in d2.m
    ensures var p := d2.m[k];
            && ((exists e :: e in ComparePlan(nodes, d1, d2, diff) && e.key == k) <==> !IsBlank(nodes[p].b))
            && forall e | e in ComparePlan(nodes, d1, d2, diff) && e.key == k ::
                 e == Entry(k, OnlyIn(k, nodes[p].h), [], [p])
  {
    PlanOnlyEmitted(nodes, d1, d2, diff);
    PlanAllEmitted(nodes, d1, d2, diff);
    if !IsBlank(nodes[d2.m[k]].b) {
      assert Emit(nodes, d1, d2, diff, false, k)[0] in ComparePlan(nodes, d1, d2, diff);
    }
  }

  /** Entries for keys of `d1` come first, each group by increasing key. */
  ghost predicate FirstThenByKey(plan: seq<Entry>, d1: HeadIndex) {
    forall i, j | 0 <= i < j < |plan| ::
      Less(plan[i].key, plan[j].key) || (plan[i].key in d1.m && plan[j].key !in d1.m)
  }

  lemma ConcatOrdered(r1: seq<Entry>, r2: seq<Entry>, d1: HeadIndex)
    requires ByKey(r1) && ByKey(r2)
    requires forall e | e in r1 :: e.key in d1.m
    requires forall e | e in r2 :: e.key !in d1.m
    ensures FirstThenByKey(r1 + r2, d1)
  {
    var plan := r1 + r2;
    forall i, j | 0 <= i < j < |plan|
      ensures Less(plan[i].key, plan[j].key) || (plan[i].key in d1.m && plan[j].key !in d1.m)
    {
      if j < |r1| {
        assert plan[i] == r1[i] && plan[j] == r1[j];
      } else if i < |r1| {
        assert plan[i] == r1[i] && plan[i] in r1;
        assert plan[j] == r2[j - |r1|] && plan[j] in r2;
      } else {
        assert plan[i] == r2[i - |r1|] && plan[j] == r2[j - |r1|];
      }
    }
  }

  /** Keys of `d1` come first, in increasing order, then the keys only in
      `d2`, in increasing order; so no key is reported twice. */
  lemma CompareOrder(nodes: seq<VNode>, d1: HeadIndex, d2: HeadIndex, diff: (string, string) -> seq<string>)
    requires HeadIndexIn(nodes, d1) && HeadIndexIn(nodes, d2)
    ensures FirstThenByKey(ComparePlan(nodes, d1, d2, diff), d1)
  {
    SortedKeysOf(d1);
    SortedKeysOf(d2);
    var ks1, ks2 := SortedKeys(d1.keys), SortedKeys(d2.keys);
    var r1 := Pass(nodes, d1, d2, diff, true, ks1, |ks1|);
    var r2 := Pass(nodes, d1, d2, diff, false, ks2, |ks2|);
    assert ComparePlan(nodes, d1, d2, diff) == r1 + r2;
    PassOnlyEmitted(nodes, d1, d2, diff, true, ks1, |ks1|);
    PassOnlyEmitted(nodes, d1, d2, diff, false, ks2, |ks2|);
    PassOrdered(nodes, d1, d2, diff, true, ks1, |ks1|);
    PassOrdered(nodes, d1, d2, diff, false, ks2, |ks2|);
    forall e | e in r2 ensures e.key !in d1.m {
      assert e in Emit(nodes, d1, d2, diff, false, e.key);
    }
    ConcatOrdered(r1, r2, d1);
  }

  /** Comparing a tree with itself reports nothing, as long as the diff of a
      body with itself is empty. */
  lemma SameIndexNoEntries(nodes: seq<VNode>, d: HeadIndex, diff: (string, string) -> seq<string>)
    requires HeadIndexIn(nodes, d)
    requires forall k | k in d.m :: diff(nodes[d.m[k]].b, nodes[d.m[k]].b) == []
    ensures ComparePlan(nodes, d, d, diff) == []
  {
    SortedKeysOf(d);
    var ks := SortedKeys(d.keys);
    PassSilent(nodes, d, d, diff, true, ks, |ks|);
    PassSilent(nodes, d, d, diff, false, ks, |ks|);
  }

  /** A pass whose keys emit nothing is empty. */
  lemma {:induction false} PassSilent(nodes: seq<VNode>, d1: HeadIndex, d2: HeadIndex,
                                      diff: (string, string) -> seq<string>, first: bool, keys: seq<string>, n: nat)
    requires HeadIndexIn(nodes, d1) && HeadIndexIn(nodes, d2)
    requires KeysIn(Side(d1, d2, first), keys) && n <= |keys|
    requires forall i | 0 <= i < n :: Emit(nodes, d1, d2, diff, first, keys[i]) == []
    ensures Pass(nodes, d1, d2, diff, first, keys, n) == []
  {
    if n > 0 {
      PassSilent(nodes, d1, d2, diff, first, keys, n - 1);
    }
  }

  /** What is emitted for a key depends on the arena only through the
      positions of `d1` and `d2`. */
  lemma EmitFrame(nodes: seq<VNode>, nodes': seq<VNode>, d1: HeadIndex, d2: HeadIndex,
                  diff: (string, string) -> seq<string>, first: bool, k: string)
    requires HeadIndexIn(nodes, d1) && HeadIndexIn(nodes, d2) && HeadIndexIn(nodes', d1) && HeadIndexIn(nodes', d2)
    requires k in d1.m ==> nodes'[d1.m[k]] == nodes[d1.m[k]]
    requires k in d2.m ==> nodes'[d2.m[k]] == nodes[d2.m[k]]
    requires k in Side(d1, d2, first).m
    ensures Emit(nodes', d1, d2, diff, first, k) == Emit(nodes, d1, d2, diff, first, k)
  {
    if first {
      var p1 := d1.m[k];
      assert nodes'[p1].b == nodes[p1].b && nodes'[p1].h == nodes[p1].h;
      if k in d2.m {
        var p2 := d2.m[k];
        assert nodes'[p2].b == nodes[p2].b;
      }
    } else {
      var p2 := d2.m[k];
      assert nodes'[p2].b == nodes[p2].b && nodes'[p2].h == nodes[p2].h;
    }
  }

  /** Passes over the same keys agree when each key emits the same in both arenas. */
  lemma {:induction false} PassFrame(nodes: seq<VNode>, nodes': seq<VNode>, d1: HeadIndex, d2: HeadIndex,
                                     diff: (string, string) -> seq<string>, first: bool, keys: seq<string>, n: nat)
    requires HeadIndexIn(nodes, d1) && HeadIndexIn(nodes, d2) && HeadIndexIn(nodes', d1) && HeadIndexIn(nodes', d2)
    requires KeysIn(Side(d1, d2, first), keys) && n <= |keys|
    requires forall i | 0 <= i < n :: Emit(nodes', d1, d2, diff, first, keys[i]) == Emit(nodes, d1, d2, diff, first, keys[i])
    ensures Pass(nodes', d1, d2, diff, first, keys, n) == Pass(nodes, d1, d2, diff, first, keys, n)
  {
    if n > 0 {
      PassFrame(nodes, nodes', d1, d2, diff, first, keys, n - 1);
      assert Pass(nodes', d1, d2, diff, first, keys, n)
          == Pass(nodes', d1, d2, diff, first, keys, n - 1) + Emit(nodes', d1, d2, diff, first, keys[n - 1]);
    }
  }

  /** The report looks at the arena only through the positions of `d1` and `d2`. */
  lemma PlanFrame(nodes: seq<VNode>, nodes': seq<VNode>, d1: HeadIndex, d2: HeadIndex,
                  diff: (string, string) -> seq<string>)
    requires HeadIndexIn(nodes, d1) && HeadIndexIn(nodes, d2) && HeadIndexIn(nodes', d1) && HeadIndexIn(nodes', d2)
    requires forall k | k in d1.m :: nodes'[d1.m[k]] == nodes[d1.m[k]]
    requires forall k | k in d2.m :: nodes'[d2.m[k]] == nodes[d2.m[k]]
    ensures ComparePlan(nodes', d1, d2, diff) == ComparePlan(nodes, d1, d2, diff)
  {
    SortedKeysOf(d1);
    SortedKeysOf(d2);
    var ks1, ks2 := SortedKeys(d1.keys), SortedKeys(d2.keys);
    PassFrameAll(nodes, nodes', d1, d2, diff, true, ks1);
    PassFrameAll(nodes, nodes', d1, d2, diff, false, ks2);
  }

  lemma PassFrameAll(nodes: seq<VNode>, nodes': seq<VNode>, d1: HeadIndex, d2: HeadIndex,
                     diff: (string, string) -> seq<string>, first: bool, keys: seq<string>)
    requires HeadIndexIn(nodes, d1) && HeadIndexIn(nodes, d2) && HeadIndexIn(nodes', d1) && HeadIndexIn(nodes', d2)
    requires forall k | k in d1.m :: nodes'[d1.m[k]] == nodes[d1.m[k]]
    requires forall k | k in d2.m :: nodes'[d2.m[k]] == nodes[d2.m[k]]
    requires KeysIn(Side(d1, d2, first), keys)
    ensures Pass(nodes', d1, d2, diff, first, keys, |keys|) == Pass(nodes, d1, d2, diff, first, keys, |keys|)
  {
    forall i | 0 <= i < |keys|
      ensures Emit(nodes', d1, d2, diff, first, keys[i]) == Emit(nodes, d1, d2, diff, first, keys[i])
    {
      EmitFrame(nodes, nodes', d1, d2, diff, first, keys[i]);
    }
    PassFrame(nodes, nodes', d1, d2, diff, first, keys, |keys|);
  }

  /** The vnode made for entry `e`. */
  function EntryNode(e: Entry, gnx: Gnx, context: NodeId): VNode {
    VNode(gnx, TitleText(e.title), Join(e.lines), false, e.clones, context)
  }

  function Ids(from: nat, n: nat): (r: seq<NodeId>)
    ensures |r| == n && forall j | 0 <= j < n :: r[j] == from + j
  {
    seq(n, j requires 0 <= j < n => from + j)
  }

  /** `root` has gained one new child per entry of `plan`, in order, each
      made of the entry, with file indices from `gen`; nothing else changed. */
  ghost predicate Listed(nodesO: seq<VNode>, rankO: seq<nat>, nodes: seq<VNode>, rank: seq<nat>,
                         root: NodeId, plan: seq<Entry>, gen: NodeId -> Gnx)
  {
    && Ranked(nodesO, rankO) && Ranked(nodes, rank)
    && Appended(nodesO, nodes, root, plan, gen) && rank[..|nodesO|] == rankO
  }

  /** The vnodes of `Listed`, whether or not they can be ranked. */
  ghost predicate Appended(nodesO: seq<VNode>, nodes: seq<VNode>, root: NodeId, plan: seq<Entry>, gen: NodeId -> Gnx) {
    && root < |nodesO| && |nodes| == |nodesO| + |plan|
    && (forall x | 0 <= x < |nodesO| && x != root :: nodes[x] == nodesO[x])
    && nodes[root] == nodesO[root].(children := nodesO[root].children + Ids(|nodesO|, |plan|))
    && nodes[|nodesO|..] == ReportNodes(plan, |nodesO|, gen, nodesO[root].context)
  }

  /** The vnodes made for the entries of `plan`, the first with index `from`. */
  function ReportNodes(plan: seq<Entry>, from: nat, gen: NodeId -> Gnx, context: NodeId): (r: seq<VNode>)
    ensures |r| == |plan|
  {
    if plan == [] then []
    else ReportNodes(plan[..|plan| - 1], from, gen, context) + [EntryNode(plan[|plan| - 1], gen(from + |plan| - 1), context)]
  }

  /** The `j`-th vnode is made of the `j`-th entry. */
  lemma {:induction false} ReportNodesAt(plan: seq<Entry>, from: nat, gen: NodeId -> Gnx, context: NodeId)
    ensures forall j | 0 <= j < |plan| :: ReportNodes(plan, from, gen, context)[j] == EntryNode(plan[j], gen(from + j), context)
  {
    if plan != [] {
      var init := plan[..|plan| - 1];
      ReportNodesAt(init, from, gen, context);
      forall j | 0 <= j < |plan| - 1
        ensures ReportNodes(plan, from, gen, context)[j] == EntryNode(plan[j], gen(from + j), context)
      {
        assert plan[j] == init[j];
      }
    }
  }

  lemma ListedSnoc(nodesO: seq<VNode>, rankO: seq<nat>, nodes1: seq<VNode>, rank1: seq<nat>,
                   nodes2: seq<VNode>, rank2: seq<nat>, root: NodeId, plan: seq<Entry>, e: Entry,
                   gen: NodeId -> Gnx, r: nat)
    requires Listed(nodesO, rankO, nodes1, rank1, root, plan, gen) && Ranked(nodes2, rank2)
    requires nodes2 == nodes1[root := nodes1[root].(children := nodes1[root].children + [|nodes1|])]
                       + [EntryNode(e, gen(|nodes1|), nodes1[root].context)]
    requires rank2 == rank1 + [r]
    ensures Listed(nodesO, rankO, nodes2, rank2, root, plan + [e], gen)
  {
    assert Ids(|nodesO|, |plan|) + [|nodes1|] == Ids(|nodesO|, |plan| + 1);
    assert rank2[..|nodesO|] == rank1[..|nodesO|];
    assert (plan + [e])[..|plan|] == plan;
    assert nodes2[|nodesO|..] == nodes1[|nodesO|..] + [EntryNode(e, gen(|nodes1|), nodes1[root].context)];
  }

  /** The vnode `x` may go under a new child of `root`: it is a vnode of the
      arena, not a commander, and ranked below that child. */
  ghost predicate ClonableUnder(nodes: seq<VNode>, rank: seq<nat>, commanders: set<NodeId>, root: NodeId, x: NodeId) {
    x < |nodes| && x < |rank| && root < |rank| && x !in commanders && rank[x] + 1 < rank[root]
  }

  /** All of `clones` may go under a new child of `root`. */
  ghost predicate Clonable(nodes: seq<VNode>, rank: seq<nat>, commanders: set<NodeId>, root: NodeId, clones: seq<NodeId>) {
    && root < |rank| && 2 <= rank[root]
    && forall i | 0 <= i < |clones| :: ClonableUnder(nodes, rank, commanders, root, clones[i])
  }

  /** Every position of `d` may be cloned under a new child of `root`. */
  ghost predicate IndexClonable(nodes: seq<VNode>, rank: seq<nat>, commanders: set<NodeId>, root: NodeId, d: HeadIndex) {
    forall k | k in d.m :: ClonableUnder(nodes, rank, commanders, root, d.m[k])
  }

  /** Whatever is clonable before the report grows stays clonable. */
  lemma ClonableGrown(nodesO: seq<VNode>, rankO: seq<nat>, nodes: seq<VNode>, rank: seq<nat>,
                      root: NodeId, plan: seq<Entry>, gen: NodeId -> Gnx, commanders: set<NodeId>, clones: seq<NodeId>)
    requires Listed(nodesO, rankO, nodes, rank, root, plan, gen) && Clonable(nodesO, rankO, commanders, root, clones)
    ensures Clonable(nodes, rank, commanders, root, clones)
  {
    forall x | 0 <= x < |nodesO| ensures rank[x] == rankO[x] {
      assert rank[x] == rank[..|nodesO|][x];
    }
  }

  /** The positions of `d` are left alone while the report grows. */
  lemma ListedFrame(nodesO: seq<VNode>, rankO: seq<nat>, nodes: seq<VNode>, rank: seq<nat>,
                    root: NodeId, plan: seq<Entry>, gen: NodeId -> Gnx, commanders: set<NodeId>, d: HeadIndex)
    requires Listed(nodesO, rankO, nodes, rank, root, plan, gen)
    requires HeadIndexIn(nodesO, d) && IndexClonable(nodesO, rankO, commanders, root, d)
    ensures HeadIndexIn(nodes, d)
    ensures forall k | k in d.m :: nodes[d.m[k]] == nodesO[d.m[k]]
  {
    forall k | k in d.m ensures nodes[d.m[k]] == nodesO[d.m[k]] {
      assert ClonableUnder(nodesO, rankO, commanders, root, d.m[k]);
    }
  }

  /** Every entry of `Emit` clones positions of `d1` and `d2`. */
  lemma EmitClonable(nodes: seq<VNode>, rank: seq<nat>, commanders: set<NodeId>, root: NodeId,
                     d1: HeadIndex, d2: HeadIndex, diff: (string, string) -> seq<string>, first: bool, k: string)
    requires HeadIndexIn(nodes, d1) && HeadIndexIn(nodes, d2) && k in Side(d1, d2, first).m
    requires IndexClonable(nodes, rank, commanders, root, d1) && IndexClonable(nodes, rank, commanders, root, d2)
    ensures forall e | e in Emit(nodes, d1, d2, diff, first, k) :: Clonable(nodes, rank, commanders, root, e.clones)
  {
    var p := Side(d1, d2, first).m[k];
    assert ClonableUnder(nodes, rank, commanders, root, p);
    if k in d2.m {
      assert ClonableUnder(nodes, rank, commanders, root, d2.m[k]);
    }
  }

  /** `p = root.insertAsLastChild()`, `p.h = ...`, `p.b = ...` and the
      clones moved under `p`. */
  method AddEntry(a: Arena, root: NodeId, e: Entry, gen: NodeId -> Gnx)
    requires a.Valid() && root < |a.nodes| && 1 <= |e.clones| <= 2
    requires Clonable(a.nodes, a.rank, a.commanders, root, e.clones)
    modifies a
    ensures a.Valid() && a.commanders == old(a.commanders)
    ensures a.nodes == old(a.nodes)[root := old(a.nodes[root]).(children := old(a.nodes[root].children) + [old(|a.nodes|)])]
                       + [EntryNode(e, gen(old(|a.nodes|)), old(a.nodes[root].context))]
    ensures a.rank == old(a.rank) + [old(a.rank[root]) - 1]
  {
    ghost var nodes0, n := a.nodes, |a.nodes|;
    ghost var want := nodes0[root := nodes0[root].(children := nodes0[root].children + [n])]
                      + [EntryNode(e, gen(n), nodes0[root].context)];
    var p := a.InsertAsLastChild(root, gen(|a.nodes|), TitleText(e.title), a.nodes[root].context, a.rank[root] - 1);
    a.SetBody(p, Join(e.lines));
    a.AppendChild(p, e.clones[0]);
    if |e.clones| == 2 {
      a.AppendChild(p, e.clones[1]);
      assert e.clones == [e.clones[0], e.clones[1]];
    } else {
      assert e.clones == [e.clones[0]];
    }
    assert a.nodes[n] == want[n];
    assert forall x | 0 <= x < n :: a.nodes[x] == want[x];
  }

  /** Appends the entries `es` (at most one) under `root`. */
  method AddEntries(a: Arena, root: NodeId, es: seq<Entry>, gen: NodeId -> Gnx,
                    ghost nodesO: seq<VNode>, ghost rankO: seq<nat>, ghost plan: seq<Entry>)
    requires a.Valid() && Listed(nodesO, rankO, a.nodes, a.rank, root, plan, gen) && |es| <= 1
    requires forall e | e in es :: 1 <= |e.clones| <= 2 && Clonable(nodesO, rankO, a.commanders, root, e.clones)
    modifies a
    ensures a.Valid() && a.commanders == old(a.commanders)
    ensures Listed(nodesO, rankO, a.nodes, a.rank, root, plan + es, gen)
  {
    if es != [] {
      var e := es[0];
      assert e in es && es == [e];
      ClonableGrown(nodesO, rankO, a.nodes, a.rank, root, plan, gen, a.commanders, e.clones);
      ghost var nodes1, rank1 := a.nodes, a.rank;
      AddEntry(a, root, e, gen);
      ListedSnoc(nodesO, rankO, nodes1, rank1, a.nodes, a.rank, root, plan, e, gen, rank1[root] - 1);
    } else {
      assert plan + es == plan;
    }
  }

  /** One key of one pass of `compare`. */
  method EmitNext(a: Arena, d1: HeadIndex, d2: HeadIndex, root: NodeId, diff: (string, string) -> seq<string>,
                  gen: NodeId -> Gnx, first: bool, k: string,
                  ghost nodesO: seq<VNode>, ghost rankO: seq<nat>, ghost plan: seq<Entry>)
    requires a.Valid() && Listed(nodesO, rankO, a.nodes, a.rank, root, plan, gen)
    requires HeadIndexIn(nodesO, d1) && HeadIndexIn(nodesO, d2) && k in Side(d1, d2, first).m
    requires IndexClonable(nodesO, rankO, a.commanders, root, d1) && IndexClonable(nodesO, rankO, a.commanders, root, d2)
    modifies a
    ensures a.Valid() && a.commanders == old(a.commanders)
    ensures Listed(nodesO, rankO, a.nodes, a.rank, root, plan + Emit(nodesO, d1, d2, diff, first, k), gen)
  {
    ListedFrame(nodesO, rankO, a.nodes, a.rank, root, plan, gen, a.commanders, d1);
    ListedFrame(nodesO, rankO, a.nodes, a.rank, root, plan, gen, a.commanders, d2);
    EmitFrame(nodesO, a.nodes, d1, d2, diff, first, k);
    EmitClonable(nodesO, rankO, a.commanders, root, d1, d2, diff, first, k);
    var es := Emit(a.nodes, d1, d2, diff, first, k);
    AddEntries(a, root, es, gen, nodesO, rankO, plan);
  }

  /** One pass of `compare` over `keys`, after the entries `prefix`. */
  method ComparePass(a: Arena, d1: HeadIndex, d2: HeadIndex, root: NodeId, diff: (string, string) -> seq<string>,
                     gen: NodeId -> Gnx, first: bool, keys: seq<string>,
                     ghost nodesO: seq<VNode>, ghost rankO: seq<nat>, ghost prefix: seq<Entry>)
    requires a.Valid() && Listed(nodesO, rankO, a.nodes, a.rank, root, prefix, gen)
    requires HeadIndexIn(nodesO, d1) && HeadIndexIn(nodesO, d2) && KeysIn(Side(d1, d2, first), keys)
    requires IndexClonable(nodesO, rankO, a.commanders, root, d1) && IndexClonable(nodesO, rankO, a.commanders, root, d2)
    modifies a
    ensures a.Valid() && a.commanders == old(a.commanders)
    ensures Listed(nodesO, rankO, a.nodes, a.rank, root, prefix + Pass(nodesO, d1, d2, diff, first, keys, |keys|), gen)
  {
    ghost var done: seq<Entry> := [];
    assert prefix + done == prefix;
    for i := 0 to |keys|
      invariant a.Valid() && a.commanders == old(a.commanders)
      invariant done == Pass(nodesO, d1, d2, diff, first, keys, i)
      invariant Listed(nodesO, rankO, a.nodes, a.rank, root, prefix + done, gen)
    {
      ghost var es := Emit(nodesO, d1, d2, diff, first, keys[i]);
      EmitNext(a, d1, d2, root, diff, gen, first, keys[i], nodesO, rankO, prefix + done);
      AppendAssoc(prefix, done, es);
      done := done + es;
    }
  }

  lemma AppendAssoc<T>(x: seq<T>, y: seq<T>, z: seq<T>)
    ensures x + y + z == x + (y + z)
  {
  }

  /** Both passes of `compare`: over `ks1` and then over `ks2`. */
  method CompareKeys(a: Arena, d1: HeadIndex, d2: HeadIndex, root: NodeId, diff: (string, string) -> seq<string>,
                     gen: NodeId -> Gnx, ks1: seq<string>, ks2: seq<string>)
    requires a.Valid() && root < |a.nodes| && HeadIndexIn(a.nodes, d1) && HeadIndexIn(a.nodes, d2)
    requires KeysIn(d1, ks1) && KeysIn(d2, ks2)
    requires IndexClonable(a.nodes, a.rank, a.commanders, root, d1) && IndexClonable(a.nodes, a.rank, a.commanders, root, d2)
    modifies a
    ensures a.Valid() && a.commanders == old(a.commanders)
    ensures Listed(old(a.nodes), old(a.rank), a.nodes, a.rank, root,
                   Pass(old(a.nodes), d1, d2, diff, true, ks1, |ks1|) + Pass(old(a.nodes), d1, d2, diff, false, ks2, |ks2|), gen)
  {
    ghost var nodesO, rankO := a.nodes, a.rank;
    assert Ids(|nodesO|, 0) == [] && a.rank[..|nodesO|] == rankO && a.nodes[|nodesO|..] == [];
    ComparePass(a, d1, d2, root, diff, gen, true, ks1, nodesO, rankO, []);
    ghost var firstPass := Pass(nodesO, d1, d2, diff, true, ks1, |ks1|);
    assert [] + firstPass == firstPass;
    ComparePass(a, d1, d2, root, diff, gen, false, ks2, nodesO, rankO, firstPass);
  }

  /** `compare(d1, d2, p1, p2, root)`: one new child of `root` per entry of
      the plan, in order, and nothing else changed. */
  method Compare(a: Arena, d1: HeadIndex, d2: HeadIndex, root: NodeId, diff: (string, string) -> seq<string>,
                 gen: NodeId -> Gnx)
    requires a.Valid() && root < |a.nodes| && HeadIndexIn(a.nodes, d1) && HeadIndexIn(a.nodes, d2)
    requires IndexClonable(a.nodes, a.rank, a.commanders, root, d1) && IndexClonable(a.nodes, a.rank, a.commanders, root, d2)
    modifies a
    ensures a.Valid() && a.commanders == old(a.commanders)
    ensures Listed(old(a.nodes), old(a.rank), a.nodes, a.rank, root, ComparePlan(old(a.nodes), d1, d2, diff), gen)
  {
    SortedKeysOf(d1);
    SortedKeysOf(d2);
    var ks1 := SortedKeys(d1.keys);
    var ks2 := SortedKeys(d2.keys);
    CompareKeys(a, d1, d2, root, diff, gen, ks1, ks2);
  }

  /** What `run` leaves in outline `c`: a new first top-level node `root`
      titled `tag` whose children are the nodes made for the entries of
      `plan`, in order; no other old vnode changed. */
  ghost predicate Compared(nodesO: seq<VNode>, nodes: seq<VNode>, c: NodeId, root: NodeId, tag: string,
                           plan: seq<Entry>, gen: NodeId -> Gnx)
  {
    && c < |nodesO| == root < |nodes| && |nodes| == |nodesO| + 1 + |plan|
    && (forall x | 0 <= x < |nodesO| && x != c :: nodes[x] == nodesO[x])
    && nodes[c] == nodesO[c].(children := [root] + nodesO[c].children)
    && nodes[root] == VNode(gen(root), tag, "", false, Ids(root + 1, |plan|), c)
    && nodes[root + 1..] == ReportNodes(plan, root + 1, gen, c)
  }

  /** Changing only the hidden root `c` and appending vnodes leaves the
      dictionary of any other tree as it was. */
  lemma ScanTreeFrame(nodesO: seq<VNode>, rankO: seq<nat>, nodes: seq<VNode>, rank: seq<nat>, c: NodeId, p: NodeId)
    requires Ranked(nodesO, rankO) && Ranked(nodes, rank) && |nodesO| <= |nodes| && p < |nodesO| && p != c
    requires forall u, i :: 0 <= u < |nodesO| && 0 <= i < |nodesO[u].children| ==> nodesO[u].children[i] != c
    requires forall x | 0 <= x < |nodesO| && x != c :: nodes[x] == nodesO[x]
    ensures ScanTree(nodes, rank, p) == ScanTree(nodesO, rankO, p)
  {
    RootNotBelow(nodesO, rankO, p, c);
    Untouched(nodesO, rankO, nodes, rank, c, p);
    var ps := Subtree(nodesO, rankO, p);
    forall i | 0 <= i < |ps| ensures HeadKeysOf(nodes, ps)[i] == HeadKeysOf(nodesO, ps)[i] {
      assert ps[i] in ps;
    }
    assert HeadKeysOf(nodes, ps) == HeadKeysOf(nodesO, ps);
  }

  /** The positions of a tree that is not a commander's may be cloned under
      a new child of a node ranked above every old vnode. */
  lemma ScanTreeClonable(nodesO: seq<VNode>, rankO: seq<nat>, commanders: set<NodeId>,
                         nodes: seq<VNode>, rank: seq<nat>, c: NodeId, p: NodeId, root: NodeId, top: nat)
    requires Ranked(nodesO, rankO) && p < |nodesO| && p !in commanders && c in commanders
    requires forall u, i :: 0 <= u < |nodesO| && 0 <= i < |nodesO[u].children| ==> nodesO[u].children[i] !in commanders
    requires |nodesO| <= |nodes| && |nodesO| <= |rank| && root < |rank| && rank[root] == top + 2
    requires forall x | 0 <= x < |nodesO| && x != c :: rank[x] == rankO[x]
    requires forall x | 0 <= x < |rankO| :: rankO[x] <= top
    ensures IndexClonable(nodes, rank, commanders, root, ScanTree(nodesO, rankO, p))
  {
    var d := ScanTree(nodesO, rankO, p);
    ScanTreeIn(nodesO, rankO, p);
    forall k | k in d.m ensures ClonableUnder(nodes, rank, commanders, root, d.m[k]) {
      InTreeClonable(nodesO, rankO, commanders, nodes, rank, c, p, root, top, d.m[k]);
    }
  }

  /** One position of such a tree may be cloned there. */
  lemma InTreeClonable(nodesO: seq<VNode>, rankO: seq<nat>, commanders: set<NodeId>,
                       nodes: seq<VNode>, rank: seq<nat>, c: NodeId, p: NodeId, root: NodeId, top: nat, x: NodeId)
    requires Ranked(nodesO, rankO) && p < |nodesO| && p !in commanders && c in commanders
    requires forall u, i :: 0 <= u < |nodesO| && 0 <= i < |nodesO[u].children| ==> nodesO[u].children[i] !in commanders
    requires |nodesO| <= |nodes| && |nodesO| <= |rank| && root < |rank| && rank[root] == top + 2
    requires forall x | 0 <= x < |nodesO| && x != c :: rank[x] == rankO[x]
    requires forall x | 0 <= x < |rankO| :: rankO[x] <= top
    requires x in Subtree(nodesO, rankO, p)
    ensures ClonableUnder(nodes, rank, commanders, root, x)
  {
    SubtreeRank(nodesO, rankO, p, x);
    if x != p {
      SubtreeChildren(nodesO, rankO, p, x);
    }
  }

  /** `run(c, p1, p2, tag)`: a report node titled `tag`, holding what
      `compare` finds between the trees of `p1` and `p2` as they were. The
      report goes first among the top-level nodes of outline `c`, where it
      is outside both trees. */
  method Run(a: Arena, c: NodeId, p1: NodeId, p2: NodeId, tag: string, diff: (string, string) -> seq<string>,
             gen: NodeId -> Gnx)
    returns (root: NodeId)
    requires a.Valid() && c in a.commanders
    requires p1 < |a.nodes| && p2 < |a.nodes| && p1 !in a.commanders && p2 !in a.commanders
    modifies a
    ensures a.Valid() && a.commanders == old(a.commanders)
    ensures Compared(old(a.nodes), a.nodes, c, root, tag, TreesPlan(old(a.nodes), old(a.rank), p1, p2, diff), gen)
  {
    ghost var nodesO, rankO := a.nodes, a.rank;
    ghost var top := MaxRank(a.rank);
    root := a.InsertTopLevel(c, 0, gen(|a.nodes|), tag, top + 2);
    ghost var nodes1, rank1 := a.nodes, a.rank;
    assert nodes1[c].children == [root] + nodesO[c].children;
    var d1 := Scan(a.nodes, a.rank, p1);
    var d2 := Scan(a.nodes, a.rank, p2);
    ScanTreeFrame(nodesO, rankO, nodes1, rank1, c, p1);
    ScanTreeFrame(nodesO, rankO, nodes1, rank1, c, p2);
    ScanTreeIn(nodesO, rankO, p1);
    ScanTreeIn(nodesO, rankO, p2);
    ScanTreeClonable(nodesO, rankO, a.commanders, nodes1, rank1, c, p1, root, top);
    ScanTreeClonable(nodesO, rankO, a.commanders, nodes1, rank1, c, p2, root, top);
    ReportFrame(nodesO, nodes1, c, d1, d2, diff);
    Compare(a, d1, d2, root, diff, gen);
    ListedCompared(nodesO, nodes1, rank1, a.nodes, a.rank, c, root, tag, ComparePlan(nodesO, d1, d2, diff), gen);
  }

  /** The comparison of the old trees is the comparison after the root is inserted. */
  lemma ReportFrame(nodesO: seq<VNode>, nodes1: seq<VNode>, c: NodeId, d1: HeadIndex, d2: HeadIndex,
                    diff: (string, string) -> seq<string>)
    requires HeadIndexIn(nodesO, d1) && HeadIndexIn(nodesO, d2) && |nodesO| <= |nodes1|
    requires forall k | k in d1.m :: d1.m[k] != c
    requires forall k | k in d2.m :: d2.m[k] != c
    requires forall x | 0 <= x < |nodesO| && x != c :: nodes1[x] == nodesO[x]
    ensures HeadIndexIn(nodes1, d1) && HeadIndexIn(nodes1, d2)
    ensures ComparePlan(nodes1, d1, d2, diff) == ComparePlan(nodesO, d1, d2, diff)
  {
    PlanFrame(nodesO, nodes1, d1, d2, diff);
  }

  /** The report listed under a new top-level root is what `run` leaves. */
  lemma ListedCompared(nodesO: seq<VNode>, nodes1: seq<VNode>, rank1: seq<nat>, nodes: seq<VNode>, rank: seq<nat>,
                       c: NodeId, root: NodeId, tag: string, plan: seq<Entry>, gen: NodeId -> Gnx)
    requires c < |nodesO| && root == |nodesO| && |nodes1| == |nodesO| + 1
    requires forall x | 0 <= x < |nodesO| && x != c :: nodes1[x] == nodesO[x]
    requires nodes1[c] == nodesO[c].(children := [root] + nodesO[c].children)
    requires nodes1[root] == VNode(gen(root), tag, "", false, [], c)
    requires Listed(nodes1, rank1, nodes, rank, root, plan, gen)
    ensures Compared(nodesO, nodes, c, root, tag, plan, gen)
  {
    assert [] + Ids(root + 1, |plan|) == Ids(root + 1, |plan|);
  }

  /** A tree's own root is the entry of its key: it is visited first. */
  lemma ScanTreeOwnKey(nodes: seq<VNode>, rank: seq<nat>, p: NodeId)
    requires Ranked(nodes, rank) && p < |nodes|
    ensures var d := ScanTree(nodes, rank, p);
            HeadKey(nodes[p].h) in d.m && d.m[HeadKey(nodes[p].h)] == p
  {
    var ps := Subtree(nodes, rank, p);
    var ks := HeadKeysOf(nodes, ps);
    ScanFirstWins(ks, ps, |ps|);
    assert ks[0] == HeadKey(nodes[p].h);
  }

  /** A report that would clone `p` under a node below `p` makes a cycle:
      an outline holding it cannot be ranked. */
  lemma {:induction false} AppendedCycle(nodes1: seq<VNode>, nodes2: seq<VNode>, root: NodeId, plan: seq<Entry>,
                                         gen: NodeId -> Gnx, p: NodeId, i: nat, j: nat)
    requires p < |nodes1| && p != root && i < |nodes1[p].children| && nodes1[p].children[i] == root
    requires j < |plan| && plan[j].clones != [] && plan[j].clones[0] == p
    requires Appended(nodes1, nodes2, root, plan, gen)
    ensures forall rank2: seq<nat> :: !Ranked(nodes2, rank2)
  {
    ReportNodesAt(plan, |nodes1|, gen, nodes1[root].context);
    var x := |nodes1| + j;
    assert nodes2[x] == nodes2[|nodes1|..][j];
    assert nodes2[root].children[|nodes1[root].children| + j] == x;
    Cycle3(nodes2, p, i, root, |nodes1[root].children| + j, x, 0);
  }

  /** Two trees whose roots share a key but not a body: the report lists a
      node cloning both roots. */
  lemma TreesPlanBoth(nodes: seq<VNode>, rank: seq<nat>, p1: NodeId, p2: NodeId, diff: (string, string) -> seq<string>)
    requires Ranked(nodes, rank) && p1 < |nodes| && p2 < |nodes|
    requires HeadKey(nodes[p2].h) == HeadKey(nodes[p1].h) && diff(nodes[p1].b, nodes[p2].b) != []
    ensures exists j :: 0 <= j < |TreesPlan(nodes, rank, p1, p2, diff)| && TreesPlan(nodes, rank, p1, p2, diff)[j].clones == [p1, p2]
  {
    var k := HeadKey(nodes[p1].h);
    ScanTreeOwnKey(nodes, rank, p1);
    ScanTreeOwnKey(nodes, rank, p2);
    ScanTreeIn(nodes, rank, p1);
    ScanTreeIn(nodes, rank, p2);
    var d1, d2 := ScanTree(nodes, rank, p1), ScanTree(nodes, rank, p2);
    var plan := ComparePlan(nodes, d1, d2, diff);
    assert plan == TreesPlan(nodes, rank, p1, p2, diff);
    CompareBoth(nodes, d1, d2, diff, k);
    var e :| e in plan && e.key == k;
    var j :| 0 <= j < |plan| && plan[j] == e;
  }

  /** As written, `run` makes the report root with `c.p.insertAfter()`: a
      sibling of the selected position. When that position is a child of
      `p1`, and `p2` itself has `p1`'s key and a different body, the report
      clones `p1` under a node that lies under `p1`: no outline lists that
      report, since none can be ranked. */
  lemma RunInsertAfterMakesCycle(nodesO: seq<VNode>, rankO: seq<nat>, p1: NodeId, p2: NodeId, i: nat,
                                 tag: string, context: NodeId, diff: (string, string) -> seq<string>,
                                 gen: NodeId -> Gnx)
    requires Ranked(nodesO, rankO) && p1 < |nodesO| && p2 < |nodesO| && i < |nodesO[p1].children|
    requires HeadKey(nodesO[p2].h) == HeadKey(nodesO[p1].h) && diff(nodesO[p1].b, nodesO[p2].b) != []
    ensures var root := |nodesO|;
            var nodes1 := InsertAfterAsWritten(nodesO, p1, i, VNode(gen(root), tag, "", false, [], context));
            var rank1 := rankO + [0];
            && Ranked(nodes1, rank1)
            && forall nodes2: seq<VNode>, rank2: seq<nat> |
                 Appended(nodes1, nodes2, root, TreesPlan(nodes1, rank1, p1, p2, diff), gen) :: !Ranked(nodes2, rank2)
  {
    var root := |nodesO|;
    var newNode := VNode(gen(root), tag, "", false, [], context);
    var nodes1 := InsertAfterAsWritten(nodesO, p1, i, newNode);
    InsertAfterRanked(nodesO, rankO, p1, i, newNode);
    assert nodes1[p2] == nodesO[p2] || p2 == p1;
    TreesPlanCycle(nodes1, rankO + [0], root, p1, p2, i + 1, diff, gen);
  }

  /** A report root that is a child of `p1` cannot list a node cloning `p1`. */
  lemma TreesPlanCycle(nodes1: seq<VNode>, rank1: seq<nat>, root: NodeId, p1: NodeId, p2: NodeId, i: nat,
                       diff: (string, string) -> seq<string>, gen: NodeId -> Gnx)
    requires Ranked(nodes1, rank1) && root < |nodes1| && p1 < |nodes1| && p2 < |nodes1| && p1 != root
    requires i < |nodes1[p1].children| && nodes1[p1].children[i] == root
    requires HeadKey(nodes1[p2].h) == HeadKey(nodes1[p1].h) && diff(nodes1[p1].b, nodes1[p2].b) != []
    ensures forall nodes2: seq<VNode>, rank2: seq<nat> |
              Appended(nodes1, nodes2, root, TreesPlan(nodes1, rank1, p1, p2, diff), gen) :: !Ranked(nodes2, rank2)
  {
    TreesPlanBoth(nodes1, rank1, p1, p2, diff);
    var plan := TreesPlan(nodes1, rank1, p1, p2, diff);
    var j :| 0 <= j < |plan| && plan[j].clones == [p1, p2];
    forall nodes2: seq<VNode> | Appended(nodes1, nodes2, root, plan, gen)
      ensures forall rank2: seq<nat> :: !Ranked(nodes2, rank2)
    {
      AppendedCycle(nodes1, nodes2, root, plan, gen, p1, i, j);
    }
  }
}
