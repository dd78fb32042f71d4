/** The report `File-Compare-Leo-Files` builds in the visible outline: a
    root node, one group per non-empty change dictionary, and under each
    group a clone or a copy of every node the dictionary lists. */
module Report {
  import opened Dicts
  import opened Outline
  import opened ChangeSet
  import opened Text

  datatype Attach = Skip | Clone | Copy

  /** How a listed node is attached to a group titled `kind` in the outline
      whose hidden root is `c`: `@<file>` nodes stay out of groups whose
      title does not end in `.leo`, nodes of `c` are cloned, and nodes of
      the other outline are copied. */
  function AttachOf(kind: string, v: VNode, c: NodeId): Attach {
    if !EndsWith(kind, ".leo") && v.atFile then Skip
    else if v.context == c then Clone
    else Copy
  }

  /** The nodes of the first `n` keys of `d` that are not skipped, in key order. */
  ghost function Kept(nodes: seq<VNode>, d: Index, n: nat, kind: string, c: NodeId): (r: seq<NodeId>)
    requires IndexIn(nodes, d) && n <= |d.keys|
    ensures forall j | 0 <= j < |r| :: r[j] in d.m.Values
  {
    if n == 0 then []
    else
      var p := d.m[d.keys[n - 1]];
      Kept(nodes, d, n - 1, kind, c) + (if AttachOf(kind, nodes[p], c) == Skip then [] else [p])
  }

  /** `kids` attaches `members`, nodes of the arena `nodes0`, one by one: a
      node of `c` as itself (a clone), any other node as a deep copy made of
      vnodes that are new since `nodes0` and all owned by `c`. */
  ghost predicate Attached(nodes: seq<VNode>, rank: seq<nat>, nodes0: seq<VNode>, rank0: seq<nat>,
                           kids: seq<NodeId>, members: seq<NodeId>, c: NodeId)
  {
    && Ranked(nodes, rank) && Ranked(nodes0, rank0) && |nodes0| <= |nodes|
    && |kids| == |members|
    && forall j | 0 <= j < |kids| ::
         && members[j] < |nodes0| && kids[j] < |nodes| && rank[kids[j]] == rank0[members[j]]
         && if nodes0[members[j]].context == c then kids[j] == members[j]
            else
              && |nodes0| <= kids[j]
              && Shape(nodes, rank, kids[j]) == Shape(nodes0, rank0, members[j])
              && forall y | y in Subtree(nodes, rank, kids[j]) :: |nodes0| <= y && nodes[y].context == c
  }

  /** A vnode of higher rank is not in the tree at `v`. */
  lemma NotBelow(nodes: seq<VNode>, rank: seq<nat>, v: NodeId, x: NodeId)
    requires Ranked(nodes, rank) && v < |nodes| && x < |nodes| && rank[v] < rank[x]
    ensures x !in Subtree(nodes, rank, v)
  {
    if x in Subtree(nodes, rank, v) {
      SubtreeRank(nodes, rank, v, x);
    }
  }

  /** Changing one vnode outside the tree at `m` and appending vnodes leaves
      that tree as it was. */
  lemma Untouched(nodes0: seq<VNode>, rank0: seq<nat>, nodes: seq<VNode>, rank: seq<nat>,
                  changed: NodeId, m: NodeId)
    requires Ranked(nodes0, rank0) && Ranked(nodes, rank) && |nodes0| <= |nodes| && m < |nodes0|
    requires changed !in Subtree(nodes0, rank0, m)
    requires forall x | 0 <= x < |nodes0| && x != changed :: nodes[x] == nodes0[x]
    ensures forall y | y in Subtree(nodes0, rank0, m) :: nodes[y] == nodes0[y]
    ensures Subtree(nodes, rank, m) == Subtree(nodes0, rank0, m)
    ensures Shape(nodes, rank, m) == Shape(nodes0, rank0, m)
  {
    Frame(nodes0, rank0, nodes, rank, m);
  }

  /** Changing only `group`, which ranks above every attached node, and
      appending vnodes keeps what is attached. */
  lemma AttachedStep(nodes1: seq<VNode>, rank1: seq<nat>, nodes2: seq<VNode>, rank2: seq<nat>,
                     nodes0: seq<VNode>, rank0: seq<nat>, kids: seq<NodeId>, members: seq<NodeId>,
                     c: NodeId, group: NodeId)
    requires Attached(nodes1, rank1, nodes0, rank0, kids, members, c)
    requires Ranked(nodes2, rank2) && |nodes1| <= |nodes2| && group < |nodes1|
    requires forall x | 0 <= x < |nodes1| && x != group :: nodes2[x] == nodes1[x] && rank2[x] == rank1[x]
    requires forall j | 0 <= j < |kids| :: rank1[kids[j]] < rank1[group]
    ensures Attached(nodes2, rank2, nodes0, rank0, kids, members, c)
  {
    forall j | 0 <= j < |kids|
      ensures Subtree(nodes2, rank2, kids[j]) == Subtree(nodes1, rank1, kids[j])
      ensures Shape(nodes2, rank2, kids[j]) == Shape(nodes1, rank1, kids[j])
      ensures forall y | y in Subtree(nodes1, rank1, kids[j]) :: nodes2[y] == nodes1[y]
    {
      NotBelow(nodes1, rank1, kids[j], group);
      Untouched(nodes1, rank1, nodes2, rank2, group, kids[j]);
    }
  }

  /** What is attached relative to a later arena `nodesB` is attached
      relative to an earlier one `nodesA` whose members look the same. */
  lemma AttachedRebase(nodes: seq<VNode>, rank: seq<nat>, nodesA: seq<VNode>, rankA: seq<nat>,
                       nodesB: seq<VNode>, rankB: seq<nat>, kids: seq<NodeId>, members: seq<NodeId>,
                       c: NodeId, vals: set<NodeId>)
    requires Attached(nodes, rank, nodesB, rankB, kids, members, c)
    requires Ranked(nodesA, rankA) && |nodesA| <= |nodesB|
    requires forall j | 0 <= j < |members| :: members[j] in vals
    requires forall v | v in vals ::
               && v < |nodesA| && nodesB[v] == nodesA[v] && rankB[v] == rankA[v]
               && Shape(nodesB, rankB, v) == Shape(nodesA, rankA, v)
    ensures Attached(nodes, rank, nodesA, rankA, kids, members, c)
  {
  }

  lemma AttachedAppend(nodes: seq<VNode>, rank: seq<nat>, nodes0: seq<VNode>, rank0: seq<nat>,
                       kids1: seq<NodeId>, members1: seq<NodeId>, kids2: seq<NodeId>, members2: seq<NodeId>,
                       c: NodeId)
    requires Attached(nodes, rank, nodes0, rank0, kids1, members1, c)
    requires Attached(nodes, rank, nodes0, rank0, kids2, members2, c)
    ensures Attached(nodes, rank, nodes0, rank0, kids1 + kids2, members1 + members2, c)
  {
    var kids, members := kids1 + kids2, members1 + members2;
    forall j | |kids1| <= j < |kids|
      ensures kids[j] == kids2[j - |kids1|] && members[j] == members2[j - |members1|]
    {
    }
  }

  /** `Kept` looks only at the listed vnodes. */
  lemma {:induction false} KeptFrame(nodes: seq<VNode>, nodes': seq<VNode>, d: Index, n: nat, kind: string, c: NodeId)
    requires IndexIn(nodes, d) && IndexIn(nodes', d) && n <= |d.keys|
    requires forall v | v in d.m.Values :: nodes'[v] == nodes[v]
    ensures Kept(nodes', d, n, kind, c) == Kept(nodes, d, n, kind, c)
  {
    if n > 0 {
      KeptFrame(nodes, nodes', d, n - 1, kind, c);
    }
  }

  /** A one-element attachment. */
  lemma AttachedSingle(nodes: seq<VNode>, rank: seq<nat>, nodes0: seq<VNode>, rank0: seq<nat>,
                       k: NodeId, m: NodeId, c: NodeId)
    requires Ranked(nodes, rank) && Ranked(nodes0, rank0) && |nodes0| <= |nodes|
    requires m < |nodes0| && k < |nodes| && rank[k] == rank0[m]
    requires nodes0[m].context == c ==> k == m
    requires nodes0[m].context != c ==>
               && |nodes0| <= k && Shape(nodes, rank, k) == Shape(nodes0, rank0, m)
               && forall y | y in Subtree(nodes, rank, k) :: |nodes0| <= y && nodes[y].context == c
    ensures Attached(nodes, rank, nodes0, rank0, [k], [m], c)
  {
  }

  /** `copy`, the last vnode of `nodes`, is a deep copy of `p` made of new
      vnodes and linked as the last child of `group`; nothing else changed. */
  ghost predicate CopiedUnder(nodes0: seq<VNode>, rank0: seq<nat>, nodes: seq<VNode>, rank: seq<nat>,
                              group: NodeId, p: NodeId, copy: NodeId)
  {
    && Ranked(nodes0, rank0) && Ranked(nodes, rank)
    && group < |nodes0| && p < |nodes0| && |nodes0| <= copy == |nodes| - 1
    && rank[..|nodes0|] == rank0 && rank[copy] == rank0[p]
    && (forall x | 0 <= x < |nodes0| && x != group :: nodes[x] == nodes0[x])
    && nodes[group] == nodes0[group].(children := nodes0[group].children + [copy])
    && Shape(nodes, rank, copy) == Shape(nodes0, rank0, p)
    && (forall y | y in Subtree(nodes, rank, copy) :: |nodes0| <= y)
  }

  /** `CopyTree` made `copy` in `nodes1`, then `AppendChild` linked it under
      `group`. */
  lemma CopyThenLink(nodes0: seq<VNode>, rank0: seq<nat>, nodes1: seq<VNode>, rank1: seq<nat>,
                     nodes2: seq<VNode>, group: NodeId, p: NodeId, copy: NodeId)
    requires Ranked(nodes0, rank0) && Ranked(nodes1, rank1) && Ranked(nodes2, rank1)
    requires group < |nodes0| && p < |nodes0| && rank0[p] < rank0[group]
    requires Grows(nodes0, rank0, nodes1, rank1) && |nodes0| <= copy == |nodes1| - 1
    requires rank1[copy] == rank0[p] && Shape(nodes1, rank1, copy) == Shape(nodes0, rank0, p)
    requires forall y | y in Subtree(nodes1, rank1, copy) :: |nodes0| <= y
    requires nodes2 == nodes1[group := nodes1[group].(children := nodes1[group].children + [copy])]
    ensures CopiedUnder(nodes0, rank0, nodes2, rank1, group, p, copy)
  {
    assert rank1[group] == rank1[..|nodes0|][group];
    NotBelow(nodes1, rank1, copy, group);
    Untouched(nodes1, rank1, nodes2, rank1, group, copy);
    forall x | 0 <= x < |nodes0| ensures nodes1[x] == nodes0[x] {
      assert nodes1[x] == nodes1[..|nodes0|][x];
    }
  }

  /** `Recontext` then gave the copy's tree to `c`. */
  lemma LinkThenRecontext(nodes0: seq<VNode>, rank0: seq<nat>, nodes1: seq<VNode>, rank: seq<nat>,
                          nodes2: seq<VNode>, group: NodeId, p: NodeId, copy: NodeId, c: NodeId)
    requires CopiedUnder(nodes0, rank0, nodes1, rank, group, p, copy) && nodes0[p].context != c
    requires Ranked(nodes2, rank) && |nodes2| == |nodes1|
    requires forall y | 0 <= y < |nodes2| ::
               nodes2[y] == nodes1[y].(context := if y in Subtree(nodes1, rank, copy) then c else nodes1[y].context)
    ensures forall x | 0 <= x < |nodes0| && x != group :: nodes2[x] == nodes0[x]
    ensures nodes2[group] == nodes0[group].(children := nodes0[group].children + [copy])
    ensures Attached(nodes2, rank, nodes0, rank0, [copy], [p], c)
  {
    Frame(nodes1, rank, nodes2, rank, copy);
    forall x | 0 <= x < |nodes0| ensures nodes2[x] == nodes1[x] {
      assert x !in Subtree(nodes1, rank, copy);
    }
    forall y | y in Subtree(nodes2, rank, copy) ensures |nodes0| <= y && nodes2[y].context == c {
    }
    AttachedSingle(nodes2, rank, nodes0, rank0, copy, p, c);
  }

  /** `p.copyTreeAfter()` then `copy.moveToLastChildOf(group)`. */
  method CopyUnder(a: Arena, group: NodeId, p: NodeId, gen: NodeId -> Gnx) returns (copy: NodeId)
    requires a.Valid() && group < |a.nodes| && p < |a.nodes| && a.rank[p] < a.rank[group]
    modifies a
    ensures a.Valid() && a.commanders == old(a.commanders)
    ensures CopiedUnder(old(a.nodes), old(a.rank), a.nodes, a.rank, group, p, copy)
  {
    ghost var nodes0, rank0 := a.nodes, a.rank;
    copy := a.CopyTree(p, a.nodes[p].context, gen);
    ghost var nodes1, rank1 := a.nodes, a.rank;
    assert a.rank[group] == a.rank[..|nodes0|][group];
    a.AppendChild(group, copy);
    CopyThenLink(nodes0, rank0, nodes1, rank1, a.nodes, group, p, copy);
  }

  /** The copy branch of `createCompareClones`: a deep copy of `p` becomes
      the last child of `group`, and every vnode of the copy is owned by `c`. */
  method CopyInto(a: Arena, c: NodeId, group: NodeId, p: NodeId, gen: NodeId -> Gnx) returns (copy: NodeId)
    requires a.Valid() && group < |a.nodes| && p < |a.nodes| && a.rank[p] < a.rank[group]
    requires a.nodes[p].context != c
    modifies a
    ensures a.Valid() && a.commanders == old(a.commanders)
    ensures old(|a.nodes|) <= copy == |a.nodes| - 1 && a.rank[..old(|a.nodes|)] == old(a.rank)
    ensures forall x | 0 <= x < old(|a.nodes|) && x != group :: a.nodes[x] == old(a.nodes[x])
    ensures a.nodes[group] == old(a.nodes[group]).(children := old(a.nodes[group].children) + [copy])
    ensures Attached(a.nodes, a.rank, old(a.nodes), old(a.rank), [copy], [p], c)
  {
    ghost var nodes0, rank0 := a.nodes, a.rank;
    copy := CopyUnder(a, group, p, gen);
    ghost var nodes1 := a.nodes;
    a.Recontext(copy, c);
    LinkThenRecontext(nodes0, rank0, nodes1, a.rank, a.nodes, group, p, copy, c);
  }

  /** What one round of the loop in `createCompareClones` did to `group`
      for the listed node `p`: nothing for a skipped node, otherwise one new
      last child that attaches `p`; no other vnode of `nodes0` changed. */
  ghost predicate AttachedOne(nodes0: seq<VNode>, rank0: seq<nat>, nodes: seq<VNode>, rank: seq<nat>,
                              kind: string, c: NodeId, group: NodeId, p: NodeId)
  {
    && Ranked(nodes, rank) && group < |nodes0| <= |nodes| && p < |nodes0|
    && rank[..|nodes0|] == rank0
    && (forall x | 0 <= x < |nodes0| && x != group :: nodes[x] == nodes0[x])
    && match AttachOf(kind, nodes0[p], c)
       case Skip => nodes == nodes0
       case Clone =>
         && nodes[group] == nodes0[group].(children := nodes0[group].children + [p])
         && Attached(nodes, rank, nodes0, rank0, [p], [p], c)
       case Copy =>
         && |nodes0| < |nodes|
         && nodes[group] == nodes0[group].(children := nodes0[group].children + [|nodes| - 1])
         && Attached(nodes, rank, nodes0, rank0, [|nodes| - 1], [p], c)
  }

  /** One round of the loop in `createCompareClones`: attach `p` to `group`
      as `AttachOf` says. */
  method AttachOne(a: Arena, c: NodeId, kind: string, group: NodeId, p: NodeId, gen: NodeId -> Gnx)
    requires a.Valid() && group < |a.nodes| && p < |a.nodes| && p !in a.commanders
    requires a.rank[p] < a.rank[group]
    modifies a
    ensures a.Valid() && a.commanders == old(a.commanders)
    ensures AttachedOne(old(a.nodes), old(a.rank), a.nodes, a.rank, kind, c, group, p)
  {
    ghost var nodes0, rank0 := a.nodes, a.rank;
    match AttachOf(kind, a.nodes[p], c) {
      case Skip =>
      case Clone =>
        a.AppendChild(group, p);
        AttachedSingle(a.nodes, a.rank, nodes0, rank0, p, p, c);
      case Copy =>
        var copy := CopyInto(a, c, group, p, gen);
    }
  }

  /** The loop invariant of `createCompareClones`: since `nodesG`, only
      `group` changed, and its children attach `members`. */
  ghost predicate Building(nodesG: seq<VNode>, rankG: seq<nat>, nodes: seq<VNode>, rank: seq<nat>,
                           group: NodeId, members: seq<NodeId>, c: NodeId)
  {
    && Ranked(nodesG, rankG) && Ranked(nodes, rank) && group < |nodesG| <= |nodes|
    && rank[..|nodesG|] == rankG
    && (forall x | 0 <= x < |nodesG| && x != group :: nodes[x] == nodesG[x])
    && nodes[group] == nodesG[group].(children := nodes[group].children)
    && Attached(nodes, rank, nodesG, rankG, nodes[group].children, members, c)
  }

  /** Appending one more attached child to `group` keeps `Building`. */
  lemma BuildingSnoc(nodesG: seq<VNode>, rankG: seq<nat>, nodes1: seq<VNode>, rank1: seq<nat>,
                     nodes2: seq<VNode>, rank2: seq<nat>, group: NodeId, members: seq<NodeId>,
                     c: NodeId, p: NodeId, k: NodeId)
    requires Building(nodesG, rankG, nodes1, rank1, group, members, c)
    requires p < |nodesG| && rankG[p] < rankG[group]
    requires Ranked(nodes2, rank2) && |nodes1| <= |nodes2| && rank2[..|nodes1|] == rank1
    requires forall x | 0 <= x < |nodes1| && x != group :: nodes2[x] == nodes1[x]
    requires nodes2[group] == nodes1[group].(children := nodes1[group].children + [k])
    requires Attached(nodes2, rank2, nodes1, rank1, [k], [p], c)
    ensures Building(nodesG, rankG, nodes2, rank2, group, members + [p], c)
  {
    NotBelow(nodesG, rankG, p, group);
    Untouched(nodesG, rankG, nodes1, rank1, group, p);
    assert rank1[p] == rank1[..|nodesG|][p];
    assert rank2[..|nodesG|] == rank2[..|nodes1|][..|nodesG|];
    forall x | 0 <= x < |nodes1| && x != group ensures rank2[x] == rank1[x] {
      assert rank2[x] == rank2[..|nodes1|][x];
    }
    var kids := nodes1[group].children;
    AttachedStep(nodes1, rank1, nodes2, rank2, nodesG, rankG, kids, members, c, group);
    AttachedRebase(nodes2, rank2, nodesG, rankG, nodes1, rank1, [k], [p], c, {p});
    AttachedAppend(nodes2, rank2, nodesG, rankG, kids, members, [k], [p], c);
  }

  lemma BuildingStep(nodesG: seq<VNode>, rankG: seq<nat>, nodes1: seq<VNode>, rank1: seq<nat>,
                     nodes2: seq<VNode>, rank2: seq<nat>, group: NodeId, members: seq<NodeId>,
                     kind: string, c: NodeId, p: NodeId)
    requires Building(nodesG, rankG, nodes1, rank1, group, members, c)
    requires p < |nodesG| && rankG[p] < rankG[group]
    requires AttachedOne(nodes1, rank1, nodes2, rank2, kind, c, group, p)
    ensures Building(nodesG, rankG, nodes2, rank2, group,
                     members + (if AttachOf(kind, nodesG[p], c) == Skip then [] else [p]), c)
  {
    assert nodes1[p] == nodesG[p];
    match AttachOf(kind, nodes1[p], c)
    case Skip =>
      assert rank2 == rank2[..|nodes1|];
    case Clone =>
      BuildingSnoc(nodesG, rankG, nodes1, rank1, nodes2, rank2, group, members, c, p, p);
    case Copy =>
      BuildingSnoc(nodesG, rankG, nodes1, rank1, nodes2, rank2, group, members, c, p, |nodes2| - 1);
  }

  /** `createCompareClones(d, kind, parent)` has run on `nodes0`: an empty
      `d` changed nothing; otherwise a new last child of `parent` titled
      `kind` attaches, in key order, every listed node that is not skipped. */
  ghost predicate Grouped(nodes0: seq<VNode>, rank0: seq<nat>, nodes: seq<VNode>, rank: seq<nat>,
                          parent: NodeId, d: Index, kind: string, c: NodeId)
  {
    && Ranked(nodes0, rank0) && Ranked(nodes, rank) && IndexIn(nodes0, d)
    && parent < |nodes0| <= |nodes| && rank[..|nodes0|] == rank0
    && (forall x | 0 <= x < |nodes0| && x != parent :: nodes[x] == nodes0[x])
    && if d.keys == [] then nodes == nodes0
       else
         var group := |nodes0|;
         && group < |nodes| && rank[group] < rank[parent]
         && nodes[parent] == nodes0[parent].(children := nodes0[parent].children + [group])
         && nodes[group].h == kind && nodes[group].b == "" && !nodes[group].atFile
         && nodes[group].context == nodes0[parent].context
         && Attached(nodes, rank, nodes0, rank0, nodes[group].children, Kept(nodes0, d, |d.keys|, kind, c), c)
  }

  /** Adding the group under `parent` leaves every listed node, all of
      lower rank than `parent`, as it was. */
  lemma ListedUnchanged(nodes0: seq<VNode>, rank0: seq<nat>, nodesG: seq<VNode>, rankG: seq<nat>,
                        parent: NodeId, d: Index)
    requires Ranked(nodes0, rank0) && Ranked(nodesG, rankG) && IndexIn(nodes0, d)
    requires parent < |nodes0| <= |nodesG| && rankG[..|nodes0|] == rank0
    requires forall x | 0 <= x < |nodes0| && x != parent :: nodesG[x] == nodes0[x]
    requires forall g | g in d.m :: rank0[d.m[g]] < rank0[parent]
    ensures forall v | v in d.m.Values ::
              && v < |nodes0| && nodesG[v] == nodes0[v] && rankG[v] == rank0[v]
              && Shape(nodesG, rankG, v) == Shape(nodes0, rank0, v)
  {
    forall v | v in d.m.Values
      ensures v < |nodes0| && nodesG[v] == nodes0[v] && rankG[v] == rank0[v]
      ensures Shape(nodesG, rankG, v) == Shape(nodes0, rank0, v)
    {
      var g :| g in d.m && d.m[g] == v;
      assert rankG[v] == rankG[..|nodes0|][v];
      NotBelow(nodes0, rank0, v, parent);
      Untouched(nodes0, rank0, nodesG, rankG, parent, v);
    }
  }

  lemma GroupDone(nodes0: seq<VNode>, rank0: seq<nat>, nodesG: seq<VNode>, rankG: seq<nat>,
                  nodes: seq<VNode>, rank: seq<nat>, parent: NodeId, d: Index, kind: string, c: NodeId,
                  gnx: Gnx, r: nat)
    requires Ranked(nodes0, rank0) && IndexIn(nodes0, d) && d.keys != [] && parent < |nodes0|
    requires forall g | g in d.m :: rank0[d.m[g]] < r < rank0[parent]
    requires nodesG == nodes0[parent := nodes0[parent].(children := nodes0[parent].children + [|nodes0|])]
                       + [VNode(gnx, kind, "", false, [], nodes0[parent].context)]
    requires rankG == rank0 + [r]
    requires Building(nodesG, rankG, nodes, rank, |nodes0|, Kept(nodesG, d, |d.keys|, kind, c), c)
    ensures Grouped(nodes0, rank0, nodes, rank, parent, d, kind, c)
  {
    var group := |nodes0|;
    assert rank[..|nodes0|] == rank[..|nodesG|][..|nodes0|];
    assert rank[group] == rank[..|nodesG|][group];
    assert rank[parent] == rank[..|nodesG|][parent];
    assert rankG[..|nodes0|] == rank0;
    ListedUnchanged(nodes0, rank0, nodesG, rankG, parent, d);
    KeptFrame(nodes0, nodesG, d, |d.keys|, kind, c);
    var members := Kept(nodes0, d, |d.keys|, kind, c);
    AttachedRebase(nodes, rank, nodes0, rank0, nodesG, rankG, nodes[group].children, members, c, d.m.Values);
  }

  /** `AttachOne` as a step of the loop invariant `Building`. */
  method AttachNext(a: Arena, c: NodeId, kind: string, group: NodeId, p: NodeId, gen: NodeId -> Gnx,
                    ghost nodesG: seq<VNode>, ghost rankG: seq<nat>, ghost members: seq<NodeId>)
    requires a.Valid() && Building(nodesG, rankG, a.nodes, a.rank, group, members, c)
    requires p < |nodesG| && p !in a.commanders && rankG[p] < rankG[group]
    modifies a
    ensures a.Valid() && a.commanders == old(a.commanders)
    ensures Building(nodesG, rankG, a.nodes, a.rank, group,
                     members + (if AttachOf(kind, nodesG[p], c) == Skip then [] else [p]), c)
  {
    ghost var nodes1, rank1 := a.nodes, a.rank;
    assert a.rank[p] == a.rank[..|nodesG|][p];
    assert a.rank[group] == a.rank[..|nodesG|][group];
    AttachOne(a, c, kind, group, p, gen);
    BuildingStep(nodesG, rankG, nodes1, rank1, a.nodes, a.rank, group, members, kind, c, p);
  }

  /** The loop of `createCompareClones` over the keys of `d`. */
  method AttachAll(a: Arena, c: NodeId, d: Index, kind: string, group: NodeId, gen: NodeId -> Gnx,
                   ghost nodesG: seq<VNode>, ghost rankG: seq<nat>)
    requires a.Valid() && Building(nodesG, rankG, a.nodes, a.rank, group, [], c) && IndexIn(nodesG, d)
    requires forall g | g in d.m :: d.m[g] !in a.commanders && rankG[d.m[g]] < rankG[group]
    modifies a
    ensures a.Valid() && a.commanders == old(a.commanders)
    ensures Building(nodesG, rankG, a.nodes, a.rank, group, Kept(nodesG, d, |d.keys|, kind, c), c)
  {
    var keys, m := d.keys, d.m;
    for i := 0 to |keys|
      invariant a.Valid() && a.commanders == old(a.commanders)
      invariant Building(nodesG, rankG, a.nodes, a.rank, group, Kept(nodesG, d, i, kind, c), c)
    {
      AttachNext(a, c, kind, group, m[keys[i]], gen, nodesG, rankG, Kept(nodesG, d, i, kind, c));
    }
  }

  /** `createCompareClones(d, kind, parent)`. */
  method CreateCompareClones(a: Arena, c: NodeId, d: Index, kind: string, parent: NodeId, gen: NodeId -> Gnx)
    requires a.Valid() && parent < |a.nodes| && IndexIn(a.nodes, d)
    requires forall g | g in d.m :: d.m[g] !in a.commanders && a.rank[d.m[g]] + 1 < a.rank[parent]
    modifies a
    ensures a.Valid() && a.commanders == old(a.commanders)
    ensures Grouped(old(a.nodes), old(a.rank), a.nodes, a.rank, parent, d, kind, c)
  {
    if d.keys != [] {
      ghost var nodes0, rank0 := a.nodes, a.rank;
      assert d.keys[0] in d.m;
      ghost var r: nat := a.rank[parent] - 1;
      var group := a.InsertAsLastChild(parent, gen(|a.nodes|), kind, a.nodes[parent].context, r);
      ghost var nodesG, rankG := a.nodes, a.rank;
      forall g | g in d.m ensures rankG[d.m[g]] == rank0[d.m[g]] {
        assert rankG[d.m[g]] == rankG[..|nodes0|][d.m[g]];
      }
      assert a.rank[..|nodesG|] == rankG;
      AttachAll(a, c, d, kind, group, gen, nodesG, rankG);
      GroupDone(nodes0, rank0, nodesG, rankG, a.nodes, a.rank, parent, d, kind, c, gen(|nodes0|), r);
    }
  }

  /** A rank at least as high as every rank in use. */
  ghost function MaxRank(rank: seq<nat>): (m: nat)
    ensures forall i | 0 <= i < |rank| :: rank[i] <= m
  {
    if rank == [] then 0
    else
      var m := MaxRank(rank[..|rank| - 1]);
      assert forall i | 0 <= i < |rank| - 1 :: rank[i] == rank[..|rank| - 1][i];
      if rank[|rank| - 1] > m then rank[|rank| - 1] else m
  }

  /** The groups of the report for the first `n` dictionaries: one per
      dictionary that is not empty, titled by its kind, in order. */
  function Groups(dicts: seq<Index>, kinds: seq<string>, n: nat): (r: seq<(Index, string)>)
    requires n <= |dicts| == |kinds|
    ensures forall j | 0 <= j < |r| :: r[j].0 in dicts[..n] && r[j].0.keys != []
  {
    if n == 0 then []
    else
      var r := Groups(dicts, kinds, n - 1) + (if dicts[n - 1].keys == [] then [] else [(dicts[n - 1], kinds[n - 1])]);
      assert forall j | 0 <= j < |r| - 1 :: r[j].0 in dicts[..n - 1];
      assert forall j | 0 <= j < |r| :: r[j].0 in dicts[..n];
      r
  }

  /** The groups in the order `createAllCompareClones` makes them: nodes only
      in the visible file (not in `fn2`), nodes only in the other file (not in
      `fn1`), and changed nodes as they are in the other file. */
  function Plan(fn1: string, fn2: string, inserted: Index, deleted: Index, changed: Index): (r: seq<(Index, string)>)
  {
    Groups([deleted, inserted, changed], ["not in " + fn2, "not in " + fn1, "changed: as in " + fn2], 3)
  }

  /** A dictionary the report can list: an index of the arena whose
      positions are ordinary nodes, not hidden roots. */
  ghost predicate Listable(nodes: seq<VNode>, commanders: set<NodeId>, d: Index) {
    IndexIn(nodes, d) && forall g | g in d.m :: d.m[g] !in commanders
  }

  /** The report built so far on the arena `nodesO` of outline `c`: a new
      first top-level node `root` titled "Compare Two Files" whose children
      are the groups of `plan`, each titled by its kind and attaching the
      kept nodes of its dictionary; no other old vnode changed. */
  ghost predicate Reported(nodesO: seq<VNode>, rankO: seq<nat>, nodes: seq<VNode>, rank: seq<nat>,
                           c: NodeId, root: NodeId, plan: seq<(Index, string)>)
  {
    && Ranked(nodesO, rankO) && Ranked(nodes, rank) && c < |nodesO| == root < |nodes|
    && (forall x | 0 <= x < |nodesO| && x != c :: nodes[x] == nodesO[x] && rank[x] == rankO[x])
    && nodes[c] == nodesO[c].(children := [root] + nodesO[c].children)
    && nodes[root].h == "Compare Two Files" && nodes[root].b == "" && !nodes[root].atFile
    && nodes[root].context == c
    && |nodes[root].children| == |plan|
    && forall j | 0 <= j < |plan| ::
         && IndexIn(nodesO, plan[j].0)
         && root < nodes[root].children[j] < |nodes|
         && rank[nodes[root].children[j]] < rank[root]
         && nodes[nodes[root].children[j]].h == plan[j].1
         && Attached(nodes, rank, nodesO, rankO, nodes[nodes[root].children[j]].children,
                     Kept(nodesO, plan[j].0, |plan[j].0.keys|, plan[j].1, c), c)
  }

  /** The hidden root `c` is not inside the tree of any other vnode. */
  lemma RootNotBelow(nodes: seq<VNode>, rank: seq<nat>, v: NodeId, c: NodeId)
    requires Ranked(nodes, rank) && v < |nodes| && v != c
    requires forall u, i :: 0 <= u < |nodes| && 0 <= i < |nodes[u].children| ==> nodes[u].children[i] != c
    ensures c !in Subtree(nodes, rank, v)
  {
    if c in Subtree(nodes, rank, v) {
      SubtreeChildren(nodes, rank, v, c);
    }
  }

  /** The groups already in the report survive one more `createCompareClones`
      under the report root. */
  lemma EarlierGroupsKept(nodesO: seq<VNode>, rankO: seq<nat>, nodes1: seq<VNode>, rank1: seq<nat>,
                          nodes2: seq<VNode>, rank2: seq<nat>, c: NodeId, root: NodeId,
                          plan: seq<(Index, string)>, d: Index, kind: string)
    requires Reported(nodesO, rankO, nodes1, rank1, c, root, plan)
    requires Grouped(nodes1, rank1, nodes2, rank2, root, d, kind, c)
    ensures forall j | 0 <= j < |plan| ::
              var g := nodes1[root].children[j];
              && nodes2[g] == nodes1[g] && rank2[g] == rank1[g]
              && Attached(nodes2, rank2, nodesO, rankO, nodes2[g].children,
                          Kept(nodesO, plan[j].0, |plan[j].0.keys|, plan[j].1, c), c)
  {
    var groups := nodes1[root].children;
    forall x | 0 <= x < |nodes1| && x != root ensures rank2[x] == rank1[x] {
      assert rank2[x] == rank2[..|nodes1|][x];
    }
    forall j | 0 <= j < |plan|
      ensures Attached(nodes2, rank2, nodesO, rankO, nodes1[groups[j]].children,
                       Kept(nodesO, plan[j].0, |plan[j].0.keys|, plan[j].1, c), c)
    {
      var g := groups[j];
      AttachedStep(nodes1, rank1, nodes2, rank2, nodesO, rankO, nodes1[g].children,
                   Kept(nodesO, plan[j].0, |plan[j].0.keys|, plan[j].1, c), c, root);
    }
  }

  /** The group a `createCompareClones` under the report root adds, seen
      from the arena before the report. */
  lemma NewGroupAttached(nodesO: seq<VNode>, rankO: seq<nat>, nodes1: seq<VNode>, rank1: seq<nat>,
                         nodes2: seq<VNode>, rank2: seq<nat>, c: NodeId, root: NodeId,
                         plan: seq<(Index, string)>, d: Index, kind: string)
    requires Reported(nodesO, rankO, nodes1, rank1, c, root, plan)
    requires IndexIn(nodesO, d) && d.keys != [] && forall g | g in d.m :: d.m[g] != c
    requires forall u, i :: 0 <= u < |nodesO| && 0 <= i < |nodesO[u].children| ==> nodesO[u].children[i] != c
    requires Grouped(nodes1, rank1, nodes2, rank2, root, d, kind, c)
    ensures Attached(nodes2, rank2, nodesO, rankO, nodes2[|nodes1|].children, Kept(nodesO, d, |d.keys|, kind, c), c)
  {
    forall v | v in d.m.Values
      ensures v < |nodesO| && nodes1[v] == nodesO[v] && rank1[v] == rankO[v]
      ensures Shape(nodes1, rank1, v) == Shape(nodesO, rankO, v)
    {
      var g :| g in d.m && d.m[g] == v;
      RootNotBelow(nodesO, rankO, v, c);
      Untouched(nodesO, rankO, nodes1, rank1, c, v);
    }
    KeptFrame(nodesO, nodes1, d, |d.keys|, kind, c);
    AttachedRebase(nodes2, rank2, nodesO, rankO, nodes1, rank1, nodes2[|nodes1|].children,
                   Kept(nodesO, d, |d.keys|, kind, c), c, d.m.Values);
  }

  /** One more `createCompareClones` under the report root extends the report. */
  lemma ReportedStep(nodesO: seq<VNode>, rankO: seq<nat>, nodes1: seq<VNode>, rank1: seq<nat>,
                     nodes2: seq<VNode>, rank2: seq<nat>, c: NodeId, root: NodeId,
                     plan: seq<(Index, string)>, d: Index, kind: string)
    requires Reported(nodesO, rankO, nodes1, rank1, c, root, plan)
    requires IndexIn(nodesO, d) && forall g | g in d.m :: d.m[g] != c
    requires forall u, i :: 0 <= u < |nodesO| && 0 <= i < |nodesO[u].children| ==> nodesO[u].children[i] != c
    requires Grouped(nodes1, rank1, nodes2, rank2, root, d, kind, c)
    ensures Reported(nodesO, rankO, nodes2, rank2, c, root, plan + (if d.keys == [] then [] else [(d, kind)]))
  {
    if d.keys == [] {
      assert rank2 == rank2[..|nodes1|];
    } else {
      var plan2 := plan + [(d, kind)];
      EarlierGroupsKept(nodesO, rankO, nodes1, rank1, nodes2, rank2, c, root, plan, d, kind);
      NewGroupAttached(nodesO, rankO, nodes1, rank1, nodes2, rank2, c, root, plan, d, kind);
      assert rank2[root] == rank2[..|nodes1|][root];
      forall x | 0 <= x < |nodesO| && x != c ensures nodes2[x] == nodesO[x] && rank2[x] == rankO[x] {
        assert rank2[x] == rank2[..|nodes1|][x];
      }
      assert nodes2[c] == nodesO[c].(children := [root] + nodesO[c].children) by {
        assert rank2[c] == rank2[..|nodes1|][c];
      }
      assert nodes2[root].children == nodes1[root].children + [|nodes1|];
      forall j | 0 <= j < |plan2|
        ensures && IndexIn(nodesO, plan2[j].0)
                && root < nodes2[root].children[j] < |nodes2|
                && rank2[nodes2[root].children[j]] < rank2[root]
                && nodes2[nodes2[root].children[j]].h == plan2[j].1
                && Attached(nodes2, rank2, nodesO, rankO, nodes2[nodes2[root].children[j]].children,
                            Kept(nodesO, plan2[j].0, |plan2[j].0.keys|, plan2[j].1, c), c)
      {
        if j < |plan| {
          var g := nodes1[root].children[j];
          assert rank2[root] == rank2[..|nodes1|][root];
        }
      }
    }
  }

  /** One round of the loop in `createAllCompareClones`. */
  method AddGroup(a: Arena, c: NodeId, root: NodeId, d: Index, kind: string, gen: NodeId -> Gnx,
                  ghost nodesO: seq<VNode>, ghost rankO: seq<nat>, ghost plan: seq<(Index, string)>, ghost top: nat)
    requires a.Valid() && Reported(nodesO, rankO, a.nodes, a.rank, c, root, plan) && a.rank[root] == top + 2
    requires Listable(nodesO, a.commanders, d) && c in a.commanders
    requires forall x | 0 <= x < |rankO| :: rankO[x] <= top
    requires forall u, i :: 0 <= u < |nodesO| && 0 <= i < |nodesO[u].children| ==> nodesO[u].children[i] != c
    modifies a
    ensures a.Valid() && a.commanders == old(a.commanders)
    ensures Reported(nodesO, rankO, a.nodes, a.rank, c, root, plan + (if d.keys == [] then [] else [(d, kind)]))
    ensures a.rank[root] == top + 2
  {
    ghost var nodes1, rank1 := a.nodes, a.rank;
    forall g | g in d.m ensures a.rank[d.m[g]] + 1 < a.rank[root] {
      assert d.m[g] != c;
    }
    CreateCompareClones(a, c, d, kind, root, gen);
    ReportedStep(nodesO, rankO, nodes1, rank1, a.nodes, a.rank, c, root, plan, d, kind);
    assert a.rank[root] == a.rank[..|nodes1|][root];
  }

  /** `createAllCompareClones(c1, c2, inserted, deleted, changed)` for the
      visible outline whose hidden root is `c`; `fn1` and `fn2` are the
      short names of the visible and the other file. The report root is the
      first top-level node of the outline. */
  method CreateAllCompareClones(a: Arena, c: NodeId, fn1: string, fn2: string,
                                inserted: Index, deleted: Index, changed: Index, gen: NodeId -> Gnx)
    returns (root: NodeId)
    requires a.Valid() && c in a.commanders
    requires Listable(a.nodes, a.commanders, inserted) && Listable(a.nodes, a.commanders, deleted)
    requires Listable(a.nodes, a.commanders, changed)
    modifies a
    ensures a.Valid() && a.commanders == old(a.commanders)
    ensures Reported(old(a.nodes), old(a.rank), a.nodes, a.rank, c, root, Plan(fn1, fn2, inserted, deleted, changed))
  {
    ghost var nodesO, rankO := a.nodes, a.rank;
    ghost var top := MaxRank(a.rank);
    root := a.InsertTopLevel(c, 0, gen(|a.nodes|), "Compare Two Files", top + 2);
    assert a.nodes[c].children == [root] + nodesO[c].children;
    var dicts := [deleted, inserted, changed];
    var kinds := ["not in " + fn2, "not in " + fn1, "changed: as in " + fn2];
    for i := 0 to 3
      invariant a.Valid() && a.commanders == old(a.commanders)
      invariant Reported(nodesO, rankO, a.nodes, a.rank, c, root, Groups(dicts, kinds, i))
      invariant a.rank[root] == top + 2
    {
      AddGroup(a, c, root, dicts[i], kinds[i], gen, nodesO, rankO, Groups(dicts, kinds, i), top);
    }
  }

  /** Which nodes a group gets: the nodes of the listed keys that are not
      skipped, and no others. */
  lemma {:induction false} KeptExactly(nodes: seq<VNode>, d: Index, n: nat, kind: string, c: NodeId, p: NodeId)
    requires IndexIn(nodes, d) && n <= |d.keys|
    ensures p in Kept(nodes, d, n, kind, c) <==>
              exists k | 0 <= k < n :: d.m[d.keys[k]] == p && AttachOf(kind, nodes[p], c) != Skip
  {
    if n > 0 {
      KeptExactly(nodes, d, n - 1, kind, c, p);
      if p in Kept(nodes, d, n, kind, c) && p !in Kept(nodes, d, n - 1, kind, c) {
        assert d.m[d.keys[n - 1]] == p;
      }
    }
  }

  /** Each change dictionary gets a group exactly when it is not empty, and
      the groups come in the order deleted, inserted, changed. */
  lemma PlanGroups(fn1: string, fn2: string, inserted: Index, deleted: Index, changed: Index)
    ensures (deleted, "not in " + fn2) in Plan(fn1, fn2, inserted, deleted, changed) <==> deleted.keys != []
    ensures (inserted, "not in " + fn1) in Plan(fn1, fn2, inserted, deleted, changed) <==> inserted.keys != []
    ensures (changed, "changed: as in " + fn2) in Plan(fn1, fn2, inserted, deleted, changed) <==> changed.keys != []
    ensures deleted.keys != [] ==> Plan(fn1, fn2, inserted, deleted, changed)[0] == (deleted, "not in " + fn2)
    ensures changed.keys != [] ==>
              Plan(fn1, fn2, inserted, deleted, changed)[|Plan(fn1, fn2, inserted, deleted, changed)| - 1]
                == (changed, "changed: as in " + fn2)
  {
    var dicts := [deleted, inserted, changed];
    var kinds := ["not in " + fn2, "not in " + fn1, "changed: as in " + fn2];
    assert Groups(dicts, kinds, 0) == [];
    var g1 := Groups(dicts, kinds, 1);
    var g2 := Groups(dicts, kinds, 2);
    assert g1 == (if deleted.keys == [] then [] else [(deleted, kinds[0])]);
    assert g2 == g1 + (if inserted.keys == [] then [] else [(inserted, kinds[1])]);
    assert Plan(fn1, fn2, inserted, deleted, changed) == g2 + (if changed.keys == [] then [] else [(changed, kinds[2])]);
  }

  /** `insertAfter` applied to the position whose parent is `parent` and whose
      child index is `i`: the new vnode `newNode` becomes the next sibling. */
  function InsertAfterAsWritten(nodes: seq<VNode>, parent: NodeId, i: nat, newNode: VNode): (r: seq<VNode>)
    requires parent < |nodes| && i < |nodes[parent].children|
    ensures |r| == |nodes| + 1 && r[|nodes|] == newNode
    ensures |r[parent].children| == |nodes[parent].children| + 1 && r[parent].children[i + 1] == |nodes|
    ensures r[parent].children[..i + 1] == nodes[parent].children[..i + 1]
    ensures r[parent].children[i + 2..] == nodes[parent].children[i + 1..]
    ensures forall x | 0 <= x < |nodes| && x != parent :: r[x] == nodes[x]
    ensures r[parent] == nodes[parent].(children := r[parent].children)
  {
    var kids := nodes[parent].children;
    nodes[parent := nodes[parent].(children := kids[..i + 1] + [|nodes|] + kids[i + 1..])] + [newNode]
  }

  /** The vnode `insertAfter` adds is a leaf, so ranking it lowest keeps
      the outline ranked. */
  lemma InsertAfterRanked(nodesO: seq<VNode>, rankO: seq<nat>, parent: NodeId, i: nat, newNode: VNode)
    requires Ranked(nodesO, rankO) && parent < |nodesO| && i < |nodesO[parent].children| && newNode.children == []
    ensures Ranked(InsertAfterAsWritten(nodesO, parent, i, newNode), rankO + [0])
  {
    var nodes1, rank1 := InsertAfterAsWritten(nodesO, parent, i, newNode), rankO + [0];
    forall v, j | 0 <= v < |nodes1| && 0 <= j < |nodes1[v].children|
      ensures nodes1[v].children[j] < |nodes1| && rank1[nodes1[v].children[j]] < rank1[v]
    {
      if v == parent {
        var kids := nodesO[parent].children;
        assert rankO[kids[i]] < rankO[parent];
        if j <= i {
          assert nodes1[v].children[j] == nodes1[v].children[..i + 1][j] == kids[j];
        } else if j > i + 1 {
          assert nodes1[v].children[j] == nodes1[v].children[i + 2..][j - i - 2] == kids[j - 1];
        }
      } else if v < |nodesO| {
        assert nodes1[v] == nodesO[v];
      }
    }
  }

  /** The vnodes of `Grouped` for a non-empty `d`, whether or not they can
      be ranked: a new vnode `|nodes0|` is the last child of `parent`, every
      kept node of the outline `c` itself is among its children (a clone),
      and no other old vnode changed. */
  ghost predicate GroupLinked(nodes0: seq<VNode>, nodes: seq<VNode>, parent: NodeId, d: Index, kind: string, c: NodeId) {
    && IndexIn(nodes0, d) && parent < |nodes0| < |nodes|
    && (forall x | 0 <= x < |nodes0| && x != parent :: nodes[x] == nodes0[x])
    && nodes[parent] == nodes0[parent].(children := nodes0[parent].children + [|nodes0|])
    && forall m | m in Kept(nodes0, d, |d.keys|, kind, c) && nodes0[m].context == c :: m in nodes[|nodes0|].children
  }

  /** What `createCompareClones` leaves for a non-empty `d` has that shape. */
  lemma GroupedLinked(nodes0: seq<VNode>, rank0: seq<nat>, nodes: seq<VNode>, rank: seq<nat>,
                      parent: NodeId, d: Index, kind: string, c: NodeId)
    requires Grouped(nodes0, rank0, nodes, rank, parent, d, kind, c) && d.keys != []
    ensures GroupLinked(nodes0, nodes, parent, d, kind, c)
  {
    var group := |nodes0|;
    var members := Kept(nodes0, d, |d.keys|, kind, c);
    forall m | m in members && nodes0[m].context == c ensures m in nodes[group].children {
      var j :| 0 <= j < |members| && members[j] == m;
      assert nodes[group].children[j] == m;
    }
  }

  /** A top-level node of outline `c` whose file index no other vnode has,
      and which the other file lacks, is listed as deleted. */
  lemma TopLevelDeleted(nodesO: seq<VNode>, rankO: seq<nat>, c: NodeId, t: nat, d2: Index)
    requires Ranked(nodesO, rankO) && c < |nodesO| && t < |nodesO[c].children|
    requires var x := nodesO[c].children[t];
             forall y | 0 <= y < |nodesO| && y != x :: nodesO[y].gnx != nodesO[x].gnx
    requires Valid(d2) && nodesO[nodesO[c].children[t]].gnx !in d2.m
    ensures var ps := AllPositions(nodesO, rankO, c); Valid(FileDict(nodesO, ps, |ps|))
    ensures var x := nodesO[c].children[t];
            var ps := AllPositions(nodesO, rankO, c);
            var deleted := Deleted(FileDict(nodesO, ps, |ps|), d2);
            && IndexIn(nodesO, deleted) && nodesO[x].gnx in deleted.m && deleted.m[nodesO[x].gnx] == x
  {
    var x := nodesO[c].children[t];
    var sub := Subtree(nodesO, rankO, c);
    var ps := AllPositions(nodesO, rankO, c);
    ChildInSubtree(nodesO, rankO, c, c, t);
    var k :| 0 <= k < |sub| && sub[k] == x;
    assert k != 0 && ps[k - 1] == x;
    var d1 := FileDict(nodesO, ps, |ps|);
    FileDictLastWins(nodesO, ps, |ps|);
    FileDictValid(nodesO, ps, |ps|);
    assert nodesO[x].gnx in d1.m;
    DeletedExactly(d1, d2);
  }

  /** A group made under a leaf `parent` that is a child of one of the
      group's own clones closes a cycle. */
  lemma LinkedUnderMember(nodes0: seq<VNode>, nodes: seq<VNode>, parent: NodeId, d: Index, kind: string,
                          c: NodeId, m: NodeId, j: nat)
    requires GroupLinked(nodes0, nodes, parent, d, kind, c)
    requires m in Kept(nodes0, d, |d.keys|, kind, c) && m < |nodes0| && nodes0[m].context == c
    requires m != parent && nodes0[parent].children == []
    requires j < |nodes0[m].children| && nodes0[m].children[j] == parent
    ensures forall rank: seq<nat> :: !Ranked(nodes, rank)
  {
    var group := |nodes0|;
    var k :| 0 <= k < |nodes[group].children| && nodes[group].children[k] == m;
    assert nodes[m] == nodes0[m];
    assert nodes[parent].children == [group];
    Cycle3(nodes, m, j, parent, 0, group, k);
  }

  /** The report root made with `c.p.insertAfter()`, as written, is the next
      sibling of the selected node. Let the selected node be a child of a
      top-level node `x` of the visible outline `c` that the other file
      lacks: `x` is listed as deleted, and the first group of the report,
      made under that root, clones `x`. The report then lies under `x` and
      holds `x`: no outline with those links can be ranked. */
  lemma InsertAfterMakesCycle(nodesO: seq<VNode>, rankO: seq<nat>, c: NodeId, t: nat, i: nat,
                              d2: Index, fn2: string, gnx: Gnx)
    requires Ranked(nodesO, rankO) && c < |nodesO| && t < |nodesO[c].children|
    requires var x := nodesO[c].children[t];
             && i < |nodesO[x].children| && nodesO[x].context == c
             && (EndsWith("not in " + fn2, ".leo") || !nodesO[x].atFile)
             && forall y | 0 <= y < |nodesO| && y != x :: nodesO[y].gnx != nodesO[x].gnx
    requires Valid(d2) && nodesO[nodesO[c].children[t]].gnx !in d2.m
    ensures var ps := AllPositions(nodesO, rankO, c); Valid(FileDict(nodesO, ps, |ps|))
    ensures var x := nodesO[c].children[t];
            var ps := AllPositions(nodesO, rankO, c);
            var deleted := Deleted(FileDict(nodesO, ps, |ps|), d2);
            var nodes1 := InsertAfterAsWritten(nodesO, x, i, VNode(gnx, "Compare Two Files", "", false, [], c));
            && Ranked(nodes1, rankO + [0])
            && nodesO[x].gnx in deleted.m && deleted.m[nodesO[x].gnx] == x
            && forall nodes2: seq<VNode>, rank2: seq<nat> |
                 GroupLinked(nodes1, nodes2, |nodesO|, deleted, "not in " + fn2, c) :: !Ranked(nodes2, rank2)
  {
    var x := nodesO[c].children[t];
    var ps := AllPositions(nodesO, rankO, c);
    FileDictValid(nodesO, ps, |ps|);
    var deleted := Deleted(FileDict(nodesO, ps, |ps|), d2);
    var rootNode := VNode(gnx, "Compare Two Files", "", false, [], c);
    var nodes1 := InsertAfterAsWritten(nodesO, x, i, rootNode);
    var root, kind := |nodesO|, "not in " + fn2;
    InsertAfterRanked(nodesO, rankO, x, i, rootNode);
    TopLevelDeleted(nodesO, rankO, c, t, d2);
    ListedKeysComplete(deleted);
    var k :| 0 <= k < |deleted.keys| && deleted.keys[k] == nodesO[x].gnx;
    assert nodes1[x].context == c && nodes1[x].atFile == nodesO[x].atFile;
    KeptExactly(nodes1, deleted, |deleted.keys|, kind, c, x);
    assert x in Kept(nodes1, deleted, |deleted.keys|, kind, c);
    forall nodes2: seq<VNode> | GroupLinked(nodes1, nodes2, root, deleted, kind, c)
      ensures forall rank2: seq<nat> :: !Ranked(nodes2, rank2)
    {
      LinkedUnderMember(nodes1, nodes2, root, deleted, kind, c, x, i + 1);
    }
  }
}
