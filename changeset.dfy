/** Identity-based comparison of two outlines: the file-index dictionary of
    each outline (`createFileDict`) and the inserted / deleted / changed
    dictionaries computed from two of them (`computeChangeDicts`). */
module ChangeSet {
  import opened Dicts
  import opened Outline

  /** A dictionary from file index to (the vnode of) a position. */
  type Index = Dict<Gnx, NodeId>

  ghost predicate IndexIn(nodes: seq<VNode>, d: Index) {
    Valid(d) && forall g | g in d.m :: d.m[g] < |nodes|
  }

  ghost predicate InArena(nodes: seq<VNode>, ps: seq<NodeId>) {
    forall i :: 0 <= i < |ps| ==> ps[i] < |nodes|
  }

  /** The dictionary that `d[p.v.fileIndex] = p` has built after visiting
      the first `n` of the positions `ps`. */
  function FileDict(nodes: seq<VNode>, ps: seq<NodeId>, n: nat): (d: Index)
    requires InArena(nodes, ps) && n <= |ps|
  {
    if n == 0 then Empty()
    else Put(FileDict(nodes, ps, n - 1), nodes[ps[n - 1]].gnx, ps[n - 1])
  }

  /** The dictionary is well formed, and each entry is a visited position
      whose file index is its key. */
  lemma {:induction false} FileDictValid(nodes: seq<VNode>, ps: seq<NodeId>, n: nat)
    requires InArena(nodes, ps) && n <= |ps|
    ensures IndexIn(nodes, FileDict(nodes, ps, n))
    ensures forall g | g in FileDict(nodes, ps, n).m :: nodes[FileDict(nodes, ps, n).m[g]].gnx == g
  {
    if n > 0 {
      FileDictValid(nodes, ps, n - 1);
    }
  }

  /** Every file index visited has an entry, and that entry is the last
      position visited with it. */
  lemma {:induction false} FileDictLastWins(nodes: seq<VNode>, ps: seq<NodeId>, n: nat)
    requires InArena(nodes, ps) && n <= |ps|
    ensures forall i | 0 <= i < n :: nodes[ps[i]].gnx in FileDict(nodes, ps, n).m
    ensures forall i | 0 <= i < n && (forall j | i < j < n :: nodes[ps[j]].gnx != nodes[ps[i]].gnx) ::
              FileDict(nodes, ps, n).m[nodes[ps[i]].gnx] == ps[i]
  {
    if n > 0 {
      FileDictLastWins(nodes, ps, n - 1);
    }
  }

  /** The file indices of the first `n` positions of `ps`, in visiting order. */
  function GnxsOf(nodes: seq<VNode>, ps: seq<NodeId>, n: nat): (gs: seq<Gnx>)
    requires InArena(nodes, ps) && n <= |ps|
    ensures |gs| == n && forall i :: 0 <= i < n ==> gs[i] == nodes[ps[i]].gnx
  {
    seq(n, i requires 0 <= i < n => nodes[ps[i]].gnx)
  }

  /** Where `g` first occurs in `gs`. */
  function FirstIndex(gs: seq<Gnx>, g: Gnx): (r: nat)
    requires g in gs
    ensures r < |gs| && gs[r] == g
    ensures forall i :: 0 <= i < r ==> gs[i] != g
  {
    if gs[0] == g then 0
    else
      assert gs == [gs[0]] + gs[1..];
      FirstIndex(gs[1..], g) + 1
  }

  lemma {:induction false} FirstIndexSnoc(gs: seq<Gnx>, g: Gnx, x: Gnx)
    requires x in gs
    ensures x in gs + [g] && FirstIndex(gs + [g], x) == FirstIndex(gs, x)
  {
    if gs[0] != x {
      assert (gs + [g])[1..] == gs[1..] + [g];
      assert x in gs[1..] by { assert gs == [gs[0]] + gs[1..]; }
      FirstIndexSnoc(gs[1..], g, x);
    }
  }

  /** `keys` lists file indices of `gs`, by increasing first occurrence. */
  ghost predicate FirstVisitOrdered(gs: seq<Gnx>, keys: seq<Gnx>) {
    && (forall k | k in keys :: k in gs)
    && (forall a, b | 0 <= a < b < |keys| :: FirstIndex(gs, keys[a]) < FirstIndex(gs, keys[b]))
  }

  lemma FirstVisitOrderedSnoc(gs: seq<Gnx>, keys: seq<Gnx>, g: Gnx)
    requires FirstVisitOrdered(gs, keys)
    ensures FirstVisitOrdered(gs + [g], keys)
    ensures g !in gs ==> FirstVisitOrdered(gs + [g], keys + [g])
  {
    forall k | k in keys ensures FirstIndex(gs + [g], k) == FirstIndex(gs, k) {
      FirstIndexSnoc(gs, g, k);
    }
    if g !in gs {
      var keys' := keys + [g];
      assert FirstIndex(gs + [g], g) == |gs|;
      forall a, b | 0 <= a < b < |keys'|
        ensures FirstIndex(gs + [g], keys'[a]) < FirstIndex(gs + [g], keys'[b])
      {
        assert keys'[a] == keys[a] && keys[a] in keys;
        if b < |keys| {
          assert keys'[b] == keys[b] && keys[b] in keys;
        }
      }
    }
  }

  /** Keys are listed in the order their file index was first visited, and
      only visited file indices are keys. */
  lemma {:induction false} FileDictFirstVisitOrder(nodes: seq<VNode>, ps: seq<NodeId>, n: nat)
    requires InArena(nodes, ps) && n <= |ps|
    ensures FirstVisitOrdered(GnxsOf(nodes, ps, n), FileDict(nodes, ps, n).keys)
  {
    if n > 0 {
      var g := nodes[ps[n - 1]].gnx;
      var gs := GnxsOf(nodes, ps, n - 1);
      assert GnxsOf(nodes, ps, n) == gs + [g];
      FileDictFirstVisitOrder(nodes, ps, n - 1);
      FirstVisitOrderedSnoc(gs, FileDict(nodes, ps, n - 1).keys, g);
      if g !in FileDict(nodes, ps, n - 1).m {
        FileDictLastWins(nodes, ps, n - 1);
        assert g !in gs;
      }
    }
  }

  /** `createFileDict(c)`: the dictionary of every position of outline `c`,
      keyed by file index. */
  method CreateFileDict(nodes: seq<VNode>, ghost rank: seq<nat>, c: NodeId) returns (d: Index)
    requires Ranked(nodes, rank) && c < |nodes|
    ensures d == FileDict(nodes, AllPositions(nodes, rank, c), |AllPositions(nodes, rank, c)|)
  {
    var ps := AllPositions(nodes, rank, c);
    d := Empty();
    for i := 0 to |ps|
      invariant d == FileDict(nodes, ps, i)
    {
      d := Put(d, nodes[ps[i]].gnx, ps[i]);
    }
  }

  /** The two vnodes differ in headline or in body. */
  predicate Differs(nodes: seq<VNode>, p1: NodeId, p2: NodeId)
    requires p1 < |nodes| && p2 < |nodes|
  {
    nodes[p1].h != nodes[p2].h || nodes[p1].b != nodes[p2].b
  }

  ghost function ChangedKeys(nodes: seq<VNode>, d1: Index, d2: Index): set<Gnx>
    requires IndexIn(nodes, d1) && IndexIn(nodes, d2)
  {
    set g | g in d1.m && g in d2.m && Differs(nodes, d1.m[g], d2.m[g])
  }

  /** Keys only in `d2`, with `d2`'s positions, in `d2`'s order. */
  ghost function Inserted(d1: Index, d2: Index): Index
    requires Valid(d1) && Valid(d2)
  {
    Restrict(d2.keys, |d2.keys|, d2.m.Keys - d1.m.Keys, d2.m)
  }

  /** Keys only in `d1`, with `d1`'s positions, in `d1`'s order. */
  ghost function Deleted(d1: Index, d2: Index): Index
    requires Valid(d1) && Valid(d2)
  {
    Restrict(d1.keys, |d1.keys|, d1.m.Keys - d2.m.Keys, d1.m)
  }

  /** Keys in both whose headline or body differ, with `d2`'s positions,
      in `d1`'s order. */
  ghost function Changed(nodes: seq<VNode>, d1: Index, d2: Index): Index
    requires IndexIn(nodes, d1) && IndexIn(nodes, d2)
  {
    Restrict(d1.keys, |d1.keys|, ChangedKeys(nodes, d1, d2), d2.m)
  }

  /** The first loop of `computeChangeDicts`: `d2`'s entries whose key `d1`
      lacks. A position is never false in Python, so `not d1.get(key)` is
      `key not in d1`. */
  method CollectInserted(d1: Index, d2: Index) returns (inserted: Index)
    requires Valid(d1) && Valid(d2)
    ensures inserted == Inserted(d1, d2)
  {
    var keys, src := d2.keys, d2.m;
    ghost var allowed := src.Keys - d1.m.Keys;
    inserted := Empty();
    for i := 0 to |keys|
      invariant inserted == Restrict(keys, i, allowed, src)
    {
      var key := keys[i];
      if key !in d1.m {
        inserted := Put(inserted, key, src[key]);
      }
    }
    assert inserted == Restrict(d2.keys, |d2.keys|, d2.m.Keys - d1.m.Keys, d2.m);
  }

  /** The second loop: `d1`'s entries whose key `d2` lacks. */
  method CollectDeleted(d1: Index, d2: Index) returns (deleted: Index)
    requires Valid(d1) && Valid(d2)
    ensures deleted == Deleted(d1, d2)
  {
    var keys, src := d1.keys, d1.m;
    ghost var allowed := src.Keys - d2.m.Keys;
    deleted := Empty();
    for i := 0 to |keys|
      invariant deleted == Restrict(keys, i, allowed, src)
    {
      var key := keys[i];
      if key !in d2.m {
        deleted := Put(deleted, key, src[key]);
      }
    }
    assert deleted == Restrict(d1.keys, |d1.keys|, d1.m.Keys - d2.m.Keys, d1.m);
  }

  /** The third loop: for keys in both, `d2`'s position when headline or
      body differ (the node is shown as it is in the other file). */
  method CollectChanged(nodes: seq<VNode>, d1: Index, d2: Index) returns (changed: Index)
    requires IndexIn(nodes, d1) && IndexIn(nodes, d2)
    ensures changed == Changed(nodes, d1, d2)
  {
    var keys, src := d1.keys, d2.m;
    ghost var allowed := ChangedKeys(nodes, d1, d2);
    changed := Empty();
    for i := 0 to |keys|
      invariant changed == Restrict(keys, i, allowed, src)
    {
      var key := keys[i];
      if key in src {
        var p1, p2 := d1.m[key], src[key];
        if nodes[p1].h != nodes[p2].h || nodes[p1].b != nodes[p2].b {
          changed := Put(changed, key, p2);
        }
      }
    }
    assert changed == Restrict(d1.keys, |d1.keys|, ChangedKeys(nodes, d1, d2), d2.m);
  }

  /** `computeChangeDicts(d1, d2)`. */
  method ComputeChangeDicts(nodes: seq<VNode>, d1: Index, d2: Index)
    returns (inserted: Index, deleted: Index, changed: Index)
    requires IndexIn(nodes, d1) && IndexIn(nodes, d2)
    ensures inserted == Inserted(d1, d2)
    ensures deleted == Deleted(d1, d2)
    ensures changed == Changed(nodes, d1, d2)
  {
    inserted := CollectInserted(d1, d2);
    deleted := CollectDeleted(d1, d2);
    changed := CollectChanged(nodes, d1, d2);
  }

  /** Visiting every key of a well-formed dictionary and keeping those in
      `allowed`, a subset of its keys, keeps exactly `allowed`. */
  lemma RestrictAll(d: Index, allowed: set<Gnx>, src: map<Gnx, NodeId>)
    requires Valid(d) && allowed <= d.m.Keys && allowed <= src.Keys
    ensures forall g :: g in Restrict(d.keys, |d.keys|, allowed, src).m <==> g in allowed
  {
    var r := Restrict(d.keys, |d.keys|, allowed, src);
    RestrictSpec(d.keys, |d.keys|, allowed, src);
    ListedKeysComplete(d);
    forall g | g in allowed ensures g in r.m {
      var i :| 0 <= i < |d.keys| && d.keys[i] == g;
    }
  }

  /** `inserted` holds exactly the file indices of `d2` missing from `d1`,
      each with its position in `d2`, listed in `d2`'s order. */
  lemma InsertedExactly(d1: Index, d2: Index)
    requires Valid(d1) && Valid(d2)
    ensures Valid(Inserted(d1, d2))
    ensures forall g :: g in Inserted(d1, d2).m <==> g in d2.m && g !in d1.m
    ensures forall g | g in Inserted(d1, d2).m :: Inserted(d1, d2).m[g] == d2.m[g]
    ensures Inserted(d1, d2).keys == Filter(d2.keys, |d2.keys|, d2.m.Keys - d1.m.Keys)
  {
    RestrictSpec(d2.keys, |d2.keys|, d2.m.Keys - d1.m.Keys, d2.m);
    RestrictAll(d2, d2.m.Keys - d1.m.Keys, d2.m);
  }

  /** `deleted` holds exactly the file indices of `d1` missing from `d2`,
      each with its position in `d1`, listed in `d1`'s order. */
  lemma DeletedExactly(d1: Index, d2: Index)
    requires Valid(d1) && Valid(d2)
    ensures Valid(Deleted(d1, d2))
    ensures forall g :: g in Deleted(d1, d2).m <==> g in d1.m && g !in d2.m
    ensures forall g | g in Deleted(d1, d2).m :: Deleted(d1, d2).m[g] == d1.m[g]
    ensures Deleted(d1, d2).keys == Filter(d1.keys, |d1.keys|, d1.m.Keys - d2.m.Keys)
  {
    InsertedExactly(d2, d1);
  }

  /** `changed` holds exactly the file indices of both whose headline or
      body differ, each with its position in `d2`, listed in `d1`'s order. */
  lemma ChangedExactly(nodes: seq<VNode>, d1: Index, d2: Index)
    requires IndexIn(nodes, d1) && IndexIn(nodes, d2)
    ensures Valid(Changed(nodes, d1, d2))
    ensures forall g :: g in Changed(nodes, d1, d2).m <==>
              g in d1.m && g in d2.m && Differs(nodes, d1.m[g], d2.m[g])
    ensures forall g | g in Changed(nodes, d1, d2).m :: Changed(nodes, d1, d2).m[g] == d2.m[g]
    ensures Changed(nodes, d1, d2).keys == Filter(d1.keys, |d1.keys|, ChangedKeys(nodes, d1, d2))
  {
    RestrictSpec(d1.keys, |d1.keys|, ChangedKeys(nodes, d1, d2), d2.m);
    RestrictAll(d1, ChangedKeys(nodes, d1, d2), d2.m);
  }

  /** Every file index of either outline is either inserted, deleted or in
      both; only those in both can be changed. */
  lemma ChangeDictsPartition(nodes: seq<VNode>, d1: Index, d2: Index, g: Gnx)
    requires IndexIn(nodes, d1) && IndexIn(nodes, d2)
    ensures g in Inserted(d1, d2).m ==> g !in Deleted(d1, d2).m && g !in Changed(nodes, d1, d2).m
    ensures g in Deleted(d1, d2).m ==> g !in Changed(nodes, d1, d2).m
    ensures g in d1.m || g in d2.m <==>
              g in Inserted(d1, d2).m || g in Deleted(d1, d2).m || (g in d1.m && g in d2.m)
  {
    InsertedExactly(d1, d2);
    DeletedExactly(d1, d2);
    ChangedExactly(nodes, d1, d2);
  }

  /** Two indexes with the same file indices whose vnodes agree in headline
      and body produce three empty dictionaries. */
  lemma NoChangesBetweenEqualIndexes(nodes: seq<VNode>, d1: Index, d2: Index)
    requires IndexIn(nodes, d1) && IndexIn(nodes, d2)
    requires d1.m.Keys == d2.m.Keys
    requires forall g | g in d1.m :: !Differs(nodes, d1.m[g], d2.m[g])
    ensures Inserted(d1, d2) == Empty()
    ensures Deleted(d1, d2) == Empty()
    ensures Changed(nodes, d1, d2) == Empty()
  {
    InsertedExactly(d1, d2);
    DeletedExactly(d1, d2);
    ChangedExactly(nodes, d1, d2);
    EmptyMapEmpty(Inserted(d1, d2));
    EmptyMapEmpty(Deleted(d1, d2));
    EmptyMapEmpty(Changed(nodes, d1, d2));
  }
}
