/** Leo outlines as an arena of vnodes. Every open outline (commander) is
    identified by its hidden root vnode; the top-level nodes of the outline
    are that root's children. A position is modelled by the vnode it
    denotes: two positions of the same vnode are clones of each other. */
module Outline {

  type NodeId = nat

  /** A vnode's file index (`v.fileIndex`, its gnx). Leo mints one for
      every new vnode from its id generator; here the caller supplies it. */
  type Gnx = string

  /** `atFile` stands for `isAnyAtFileNode()`; `context` is the hidden root
      of the commander that owns the vnode. */
  datatype VNode = VNode(gnx: Gnx, h: string, b: string, atFile: bool,
                         children: seq<NodeId>, context: NodeId)

  /** Every child link points into the arena and strictly down in rank,
      so no vnode is its own descendant. */
  ghost predicate Ranked(nodes: seq<VNode>, rank: seq<nat>) {
    && |rank| == |nodes|
    && forall v, i :: 0 <= v < |nodes| && 0 <= i < |nodes[v].children| ==>
         nodes[v].children[i] < |nodes| && rank[nodes[v].children[i]] < rank[v]
  }

  ghost predicate IsChild(nodes: seq<VNode>, x: NodeId) {
    exists v, i :: 0 <= v < |nodes| && 0 <= i < |nodes[v].children| && nodes[v].children[i] == x
  }

  function Flatten(ss: seq<seq<NodeId>>): (r: seq<NodeId>)
    ensures forall x :: x in r <==> exists j :: 0 <= j < |ss| && x in ss[j]
  {
    if ss == [] then []
    else ss[0] + Flatten(ss[1..])
  }

  /** `p.self_and_subtree()`: `v`, then the subtree of each child in order. A
      vnode that occurs under several parents is visited once per occurrence. */
  function Subtree(nodes: seq<VNode>, ghost rank: seq<nat>, v: NodeId): (r: seq<NodeId>)
    requires Ranked(nodes, rank) && v < |nodes|
    ensures r != [] && r[0] == v
    ensures forall x :: x in r ==> x < |nodes|
    ensures forall i :: 0 <= i < |r| ==> r[i] < |nodes|
    decreases rank[v]
  {
    var cs := nodes[v].children;
    var r := [v] + Flatten(seq(|cs|, j requires 0 <= j < |cs| => Subtree(nodes, rank, cs[j])));
    assert forall i :: 0 <= i < |r| ==> r[i] in r;
    r
  }

  /** `c.all_positions()`: every position of the outline whose hidden root
      is `c`, in outline order; the hidden root itself is not a position. */
  function AllPositions(nodes: seq<VNode>, ghost rank: seq<nat>, c: NodeId): (r: seq<NodeId>)
    requires Ranked(nodes, rank) && c < |nodes|
    ensures forall i :: 0 <= i < |r| ==> r[i] < |nodes|
  {
    Subtree(nodes, rank, c)[1..]
  }

  /** What a deep copy reproduces: headline, body, file-node kind and the
      shapes of the children, in order. */
  datatype Tree = Tree(h: string, b: string, atFile: bool, kids: seq<Tree>)

  ghost function Shape(nodes: seq<VNode>, rank: seq<nat>, v: NodeId): Tree
    requires Ranked(nodes, rank) && v < |nodes|
    decreases rank[v]
  {
    var cs := nodes[v].children;
    Tree(nodes[v].h, nodes[v].b, nodes[v].atFile,
         seq(|cs|, j requires 0 <= j < |cs| => Shape(nodes, rank, cs[j])))
  }

  /** The children of a node visited by a traversal are visited by it too. */
  lemma ChildInSubtree(nodes: seq<VNode>, rank: seq<nat>, v: NodeId, x: NodeId, j: nat)
    requires Ranked(nodes, rank) && v < |nodes| && x in Subtree(nodes, rank, v)
    requires j < |nodes[x].children|
    ensures nodes[x].children[j] in Subtree(nodes, rank, v)
    decreases rank[v]
  {
    var cs := nodes[v].children;
    var ss := seq(|cs|, i requires 0 <= i < |cs| => Subtree(nodes, rank, cs[i]));
    if x == v {
      assert nodes[x].children[j] in ss[j];
    } else {
      var i :| 0 <= i < |ss| && x in ss[i];
      ChildInSubtree(nodes, rank, cs[i], x, j);
      assert nodes[x].children[j] in ss[i];
    }
  }

  /** Every position after the first of a traversal is some vnode's child. */
  lemma {:induction false} SubtreeChildren(nodes: seq<VNode>, rank: seq<nat>, v: NodeId, x: NodeId)
    requires Ranked(nodes, rank) && v < |nodes| && x in Subtree(nodes, rank, v) && x != v
    ensures IsChild(nodes, x)
    decreases rank[v]
  {
    var cs := nodes[v].children;
    var ss := seq(|cs|, i requires 0 <= i < |cs| => Subtree(nodes, rank, cs[i]));
    var i :| 0 <= i < |ss| && x in ss[i];
    if x != cs[i] {
      SubtreeChildren(nodes, rank, cs[i], x);
    }
  }

  /** Ranks only go down along a traversal. */
  lemma {:induction false} SubtreeRank(nodes: seq<VNode>, rank: seq<nat>, v: NodeId, x: NodeId)
    requires Ranked(nodes, rank) && v < |nodes| && x in Subtree(nodes, rank, v)
    ensures x < |nodes| && rank[x] <= rank[v]
    decreases rank[v]
  {
    if x != v {
      var cs := nodes[v].children;
      var ss := seq(|cs|, i requires 0 <= i < |cs| => Subtree(nodes, rank, cs[i]));
      var i :| 0 <= i < |ss| && x in ss[i];
      SubtreeRank(nodes, rank, cs[i], x);
    }
  }

  /** Headline, body, kind and children agree; the owner and file index
      may differ. */
  ghost predicate SameContent(a: VNode, b: VNode) {
    a.h == b.h && a.b == b.b && a.atFile == b.atFile && a.children == b.children
  }

  /** A traversal and a shape depend only on the vnodes they visit. */
  lemma {:induction false} Frame(nodes: seq<VNode>, rank: seq<nat>, nodes': seq<VNode>, rank': seq<nat>, v: NodeId)
    requires Ranked(nodes, rank) && Ranked(nodes', rank') && v < |nodes|
    requires forall x :: x in Subtree(nodes, rank, v) ==> x < |nodes'| && SameContent(nodes'[x], nodes[x])
    ensures v < |nodes'|
    ensures Subtree(nodes', rank', v) == Subtree(nodes, rank, v)
    ensures Shape(nodes', rank', v) == Shape(nodes, rank, v)
    decreases rank[v]
  {
    var cs := nodes[v].children;
    var ss := seq(|cs|, j requires 0 <= j < |cs| => Subtree(nodes, rank, cs[j]));
    var sub := Subtree(nodes, rank, v);
    assert sub == [v] + Flatten(ss);
    assert nodes'[v].children == cs;
    forall j | 0 <= j < |cs|
      ensures Subtree(nodes', rank', cs[j]) == Subtree(nodes, rank, cs[j])
      ensures Shape(nodes', rank', cs[j]) == Shape(nodes, rank, cs[j])
    {
      forall x | x in ss[j] ensures x < |nodes'| && SameContent(nodes'[x], nodes[x]) {
        assert x in Flatten(ss);
        assert x in sub;
      }
      Frame(nodes, rank, nodes', rank', cs[j]);
    }
    assert seq(|cs|, j requires 0 <= j < |cs| => Subtree(nodes', rank', cs[j]))
        == seq(|cs|, j requires 0 <= j < |cs| => Subtree(nodes, rank, cs[j]));
    assert seq(|cs|, j requires 0 <= j < |cs| => Shape(nodes', rank', cs[j]))
        == seq(|cs|, j requires 0 <= j < |cs| => Shape(nodes, rank, cs[j]));
  }

  /** Appending vnodes leaves every traversal and shape of the old ones unchanged. */
  lemma Extend(nodes: seq<VNode>, rank: seq<nat>, nodes': seq<VNode>, rank': seq<nat>, v: NodeId)
    requires Ranked(nodes, rank) && Ranked(nodes', rank') && v < |nodes| <= |nodes'|
    requires nodes'[..|nodes|] == nodes
    ensures Subtree(nodes', rank', v) == Subtree(nodes, rank, v)
    ensures Shape(nodes', rank', v) == Shape(nodes, rank, v)
  {
    forall x | x in Subtree(nodes, rank, v) ensures x < |nodes'| && SameContent(nodes'[x], nodes[x]) {
      assert nodes'[x] == nodes'[..|nodes|][x];
    }
    Frame(nodes, rank, nodes', rank', v);
  }

  /** `Extend` for several vnodes at once. */
  lemma ExtendAll(nodes: seq<VNode>, rank: seq<nat>, nodes': seq<VNode>, rank': seq<nat>, vs: seq<NodeId>)
    requires Ranked(nodes, rank) && Ranked(nodes', rank') && |nodes| <= |nodes'|
    requires nodes'[..|nodes|] == nodes
    requires forall j | 0 <= j < |vs| :: vs[j] < |nodes|
    ensures forall j | 0 <= j < |vs| :: Subtree(nodes', rank', vs[j]) == Subtree(nodes, rank, vs[j])
    ensures forall j | 0 <= j < |vs| :: Shape(nodes', rank', vs[j]) == Shape(nodes, rank, vs[j])
  {
    forall j | 0 <= j < |vs|
      ensures Subtree(nodes', rank', vs[j]) == Subtree(nodes, rank, vs[j])
      ensures Shape(nodes', rank', vs[j]) == Shape(nodes, rank, vs[j])
    {
      Extend(nodes, rank, nodes', rank', vs[j]);
    }
  }

  /** A new vnode whose children copy the children of `v` has the shape of
      `v`; if its children's trees are all at or above `floor`, so is its. */
  lemma NewParent(nodes: seq<VNode>, rank: seq<nat>, w: NodeId,
                  nodes0: seq<VNode>, rank0: seq<nat>, v: NodeId, floor: nat)
    requires Ranked(nodes, rank) && w < |nodes| && floor <= w
    requires Ranked(nodes0, rank0) && v < |nodes0|
    requires SameContent(nodes[w].(children := nodes0[v].children), nodes0[v])
    requires |nodes[w].children| == |nodes0[v].children|
    requires forall j | 0 <= j < |nodes[w].children| ::
               Shape(nodes, rank, nodes[w].children[j]) == Shape(nodes0, rank0, nodes0[v].children[j])
               && forall y | y in Subtree(nodes, rank, nodes[w].children[j]) :: floor <= y
    ensures Shape(nodes, rank, w) == Shape(nodes0, rank0, v)
    ensures forall y | y in Subtree(nodes, rank, w) :: floor <= y
  {
    var ks, cs := nodes[w].children, nodes0[v].children;
    assert seq(|ks|, j requires 0 <= j < |ks| => Shape(nodes, rank, ks[j]))
        == seq(|cs|, j requires 0 <= j < |cs| => Shape(nodes0, rank0, cs[j]));
    forall y | y in Subtree(nodes, rank, w) ensures floor <= y {
      if y != w {
        var ss := seq(|ks|, j requires 0 <= j < |ks| => Subtree(nodes, rank, ks[j]));
        var j :| 0 <= j < |ss| && y in ss[j];
      }
    }
  }

  /** `nodes` extends `nodes0` (and `rank` extends `rank0`) by appending. */
  ghost predicate Grows(nodes0: seq<VNode>, rank0: seq<nat>, nodes: seq<VNode>, rank: seq<nat>) {
    && |nodes0| <= |nodes| && |nodes0| <= |rank|
    && nodes[..|nodes0|] == nodes0 && rank[..|nodes0|] == rank0
  }

  lemma GrowsTrans(a: seq<VNode>, ra: seq<nat>, b: seq<VNode>, rb: seq<nat>, c: seq<VNode>, rc: seq<nat>)
    requires Grows(a, ra, b, rb) && Grows(b, rb, c, rc)
    ensures Grows(a, ra, c, rc)
  {
    assert c[..|a|] == c[..|b|][..|a|];
    assert rc[..|a|] == rc[..|b|][..|a|];
  }

  /** Every vnode from index `from` on is owned by `context`. */
  ghost predicate OwnedFrom(nodes: seq<VNode>, from: nat, context: NodeId) {
    forall y | from <= y < |nodes| :: nodes[y].context == context
  }

  lemma OwnedTrans(a: seq<VNode>, ra: seq<nat>, b: seq<VNode>, rb: seq<nat>, c: seq<VNode>, context: NodeId)
    requires |a| <= |b| && OwnedFrom(b, |a|, context) && OwnedFrom(c, |b|, context)
    requires |b| <= |c| && c[..|b|] == b
    ensures OwnedFrom(c, |a|, context)
  {
    forall y | |a| <= y < |b| ensures c[y].context == context {
      assert c[y] == c[..|b|][y];
    }
  }

  /** `copies[j]` is a fresh deep copy of `cs[j]` (in the arena `nodes0`)
      for every `j` so far. */
  ghost predicate Copies(nodes: seq<VNode>, rank: seq<nat>, nodes0: seq<VNode>, rank0: seq<nat>,
                         cs: seq<NodeId>, copies: seq<NodeId>, commanders: set<NodeId>)
  {
    && Ranked(nodes, rank) && Ranked(nodes0, rank0) && |copies| <= |cs|
    && forall j | 0 <= j < |copies| ::
         && cs[j] < |nodes0| && |nodes0| <= copies[j] < |nodes| && copies[j] !in commanders
         && rank[copies[j]] == rank0[cs[j]]
         && Shape(nodes, rank, copies[j]) == Shape(nodes0, rank0, cs[j])
         && forall y | y in Subtree(nodes, rank, copies[j]) :: |nodes0| <= y
  }

  /** Appending vnodes keeps the copies made so far. */
  lemma CopiesExtend(nodes: seq<VNode>, rank: seq<nat>, nodes': seq<VNode>, rank': seq<nat>,
                     nodes0: seq<VNode>, rank0: seq<nat>, cs: seq<NodeId>, copies: seq<NodeId>,
                     commanders: set<NodeId>)
    requires Copies(nodes, rank, nodes0, rank0, cs, copies, commanders)
    requires Ranked(nodes', rank') && Grows(nodes, rank, nodes', rank')
    ensures Copies(nodes', rank', nodes0, rank0, cs, copies, commanders)
  {
    ExtendAll(nodes, rank, nodes', rank', copies);
    forall j | 0 <= j < |copies| ensures rank'[copies[j]] == rank[copies[j]] {
      assert rank'[..|nodes|][copies[j]] == rank'[copies[j]];
    }
  }

  lemma CopiesSnoc(nodes: seq<VNode>, rank: seq<nat>, nodes0: seq<VNode>, rank0: seq<nat>,
                   cs: seq<NodeId>, copies: seq<NodeId>, commanders: set<NodeId>, k: NodeId)
    requires Copies(nodes, rank, nodes0, rank0, cs, copies, commanders) && |copies| < |cs|
    requires cs[|copies|] < |nodes0| && |nodes0| <= k < |nodes| && k !in commanders
    requires rank[k] == rank0[cs[|copies|]]
    requires Shape(nodes, rank, k) == Shape(nodes0, rank0, cs[|copies|])
    requires forall y | y in Subtree(nodes, rank, k) :: |nodes0| <= y
    ensures Copies(nodes, rank, nodes0, rank0, cs, copies + [k], commanders)
  {
  }

  /** No ranking exists for vnodes each a child of the next. */
  lemma Cycle3(nodes: seq<VNode>, a: NodeId, ia: nat, b: NodeId, ib: nat, c: NodeId, ic: nat)
    requires a < |nodes| && ia < |nodes[a].children| && nodes[a].children[ia] == b
    requires b < |nodes| && ib < |nodes[b].children| && nodes[b].children[ib] == c
    requires c < |nodes| && ic < |nodes[c].children| && nodes[c].children[ic] == a
    ensures forall rank: seq<nat> :: !Ranked(nodes, rank)
  {
    forall rank: seq<nat> ensures !Ranked(nodes, rank) {
      if Ranked(nodes, rank) {
        assert false;
      }
    }
  }

  /** All vnodes of every open outline, and the hidden roots that stand for
      the outlines (commanders) themselves. */
  class Arena {
    var nodes: seq<VNode>
    ghost var rank: seq<nat>
    var commanders: set<NodeId>

    /** The arena is acyclic and no hidden root is anybody's child. */
    ghost predicate Valid()
      reads this
    {
      && Ranked(nodes, rank)
      && (forall c :: c in commanders ==> c < |nodes|)
      && (forall v, i :: 0 <= v < |nodes| && 0 <= i < |nodes[v].children| ==>
            nodes[v].children[i] !in commanders)
    }

    constructor ()
      ensures Valid() && nodes == [] && commanders == {}
    {
      nodes, rank, commanders := [], [], {};
    }

    /** A new vnode with file index `gnx` and rank `r`. */
    method NewNode(gnx: Gnx, h: string, b: string, atFile: bool, children: seq<NodeId>, context: NodeId, ghost r: nat)
      returns (v: NodeId)
      requires Valid()
      requires forall i :: 0 <= i < |children| ==>
                 children[i] < |nodes| && children[i] !in commanders && rank[children[i]] < r
      modifies this
      ensures Valid() && v == old(|nodes|)
      ensures nodes == old(nodes) + [VNode(gnx, h, b, atFile, children, context)]
      ensures rank == old(rank) + [r]
      ensures commanders == old(commanders)
    {
      v := |nodes|;
      nodes := nodes + [VNode(gnx, h, b, atFile, children, context)];
      rank := rank + [r];
    }

    /** `x.moveToLastChildOf(parent)` for a clone or copy `x` that is not yet
        linked anywhere in the visible outline. */
    method AppendChild(parent: NodeId, x: NodeId)
      requires Valid() && parent < |nodes| && x < |nodes| && x !in commanders
      requires rank[x] < rank[parent]
      modifies this
      ensures Valid()
      ensures nodes == old(nodes)[parent := old(nodes[parent]).(children := old(nodes[parent].children) + [x])]
      ensures rank == old(rank) && commanders == old(commanders)
    {
      nodes := nodes[parent := nodes[parent].(children := nodes[parent].children + [x])];
    }

    /** `p.insertAfter()` for a top-level position `p`: a new vnode with
        headline `h` at index `at` among the top-level nodes of outline `c`.
        Its rank `r` leaves room below it for what the caller puts there. */
    method InsertTopLevel(c: NodeId, at: nat, gnx: Gnx, h: string, ghost r: nat) returns (v: NodeId)
      requires Valid() && c in commanders && at <= |nodes[c].children|
      modifies this
      ensures Valid() && v == old(|nodes|)
      ensures |nodes| == old(|nodes|) + 1
      ensures nodes[v] == VNode(gnx, h, "", false, [], c)
      ensures nodes[c].children == old(nodes[c].children)[..at] + [v] + old(nodes[c].children)[at..]
      ensures nodes[c].(children := old(nodes[c].children)) == old(nodes[c])
      ensures forall x :: 0 <= x < old(|nodes|) && x != c ==> nodes[x] == old(nodes[x])
      ensures rank[v] == r && forall x :: 0 <= x < old(|nodes|) && x != c ==> rank[x] == old(rank[x])
      ensures commanders == old(commanders)
    {
      v := |nodes|;
      var cs := nodes[c].children;
      nodes := nodes + [VNode(gnx, h, "", false, [], c)];
      nodes := nodes[c := nodes[c].(children := cs[..at] + [v] + cs[at..])];
      rank := rank + [r];
      rank := rank[c := if rank[c] > r then rank[c] else r + 1];
      forall u, i | 0 <= u < |nodes| && 0 <= i < |nodes[u].children|
        ensures nodes[u].children[i] < |nodes| && rank[nodes[u].children[i]] < rank[u]
        ensures nodes[u].children[i] !in commanders
      {
        if u == c && i != at {
          var k := if i < at then i else i - 1;
          assert nodes[u].children[i] == cs[k];
          assert old(nodes[c].children[k]) == cs[k];
        }
      }
    }

    /** `parent.insertAsLastChild()` followed by `setHeadString(h)`: a new
        vnode with headline `h` and rank `r` as the last child of `parent`. */
    method InsertAsLastChild(parent: NodeId, gnx: Gnx, h: string, context: NodeId, ghost r: nat)
      returns (v: NodeId)
      requires Valid() && parent < |nodes| && r < rank[parent]
      modifies this
      ensures Valid() && v == old(|nodes|)
      ensures nodes == old(nodes)[parent := old(nodes[parent]).(children := old(nodes[parent].children) + [v])]
                       + [VNode(gnx, h, "", false, [], context)]
      ensures rank == old(rank) + [r] && commanders == old(commanders)
    {
      v := |nodes|;
      nodes := nodes + [VNode(gnx, h, "", false, [], context)];
      rank := rank + [r];
      nodes := nodes[parent := nodes[parent].(children := nodes[parent].children + [v])];
    }

    /** `p.copyTreeAfter()` without its transient link after `p`: a deep copy
        of the tree at `v`, every vnode of it new, owned by `context`, with
        file indices from `gen`. A vnode met twice (a clone) is copied twice. */
    method CopyTree(v: NodeId, context: NodeId, gen: NodeId -> Gnx) returns (w: NodeId)
      requires Valid() && v < |nodes|
      modifies this
      ensures Valid() && old(|nodes|) <= w == |nodes| - 1 && w !in commanders
      ensures Grows(old(nodes), old(rank), nodes, rank)
      ensures rank[w] == old(rank[v]) && commanders == old(commanders)
      ensures Shape(nodes, rank, w) == old(Shape(nodes, rank, v))
      ensures forall y | y in Subtree(nodes, rank, w) :: old(|nodes|) <= y
      ensures OwnedFrom(nodes, old(|nodes|), context)
      decreases rank[v], 1
    {
      ghost var nodes0, rank0 := nodes, rank;
      var cs := nodes[v].children;
      var copies := CopyForest(cs, rank[v], context, gen);
      ghost var nodes1, rank1 := nodes, rank;
      w := NewNode(gen(|nodes|), nodes[v].h, nodes[v].b, nodes[v].atFile, copies, context, rank0[v]);
      forall j | 0 <= j < |copies|
        ensures Shape(nodes, rank, copies[j]) == Shape(nodes0, rank0, cs[j])
        ensures forall y | y in Subtree(nodes, rank, copies[j]) :: |nodes0| <= y
      {
        Extend(nodes1, rank1, nodes, rank, copies[j]);
      }
      NewParent(nodes, rank, w, nodes0, rank0, v, |nodes0|);
    }

    /** The copies, in order, of the trees at `cs`, whose ranks are below
        `bound`. */
    method CopyForest(cs: seq<NodeId>, ghost bound: nat, context: NodeId, gen: NodeId -> Gnx)
      returns (copies: seq<NodeId>)
      requires Valid() && forall i | 0 <= i < |cs| :: cs[i] < |nodes| && rank[cs[i]] < bound
      modifies this
      ensures Valid() && commanders == old(commanders) && |copies| == |cs|
      ensures Grows(old(nodes), old(rank), nodes, rank)
      ensures Copies(nodes, rank, old(nodes), old(rank), cs, copies, commanders)
      ensures OwnedFrom(nodes, old(|nodes|), context)
      decreases bound, 0
    {
      ghost var nodes0, rank0 := nodes, rank;
      copies := [];
      for i := 0 to |cs|
        invariant Valid() && commanders == old(commanders)
        invariant Grows(nodes0, rank0, nodes, rank)
        invariant |copies| == i
        invariant Copies(nodes, rank, nodes0, rank0, cs, copies, commanders)
        invariant OwnedFrom(nodes, |nodes0|, context)
      {
        ghost var nodes1, rank1 := nodes, rank;
        assert rank[cs[i]] == rank[..|nodes0|][cs[i]];
        var k := CopyTree(cs[i], context, gen);
        Extend(nodes0, rank0, nodes1, rank1, cs[i]);
        CopiesExtend(nodes1, rank1, nodes, rank, nodes0, rank0, cs, copies, commanders);
        GrowsTrans(nodes0, rank0, nodes1, rank1, nodes, rank);
        OwnedTrans(nodes0, rank0, nodes1, rank1, nodes, context);
        CopiesSnoc(nodes, rank, nodes0, rank0, cs, copies, commanders, k);
        copies := copies + [k];
      }
    }

    /** The loop `for p2 in copy.self_and_subtree(): p2.v.context = c`:
        every vnode of the tree at `v` is now owned by `c`. */
    method Recontext(v: NodeId, c: NodeId)
      requires Valid() && v < |nodes|
      modifies this
      ensures Valid() && |nodes| == old(|nodes|) && rank == old(rank) && commanders == old(commanders)
      ensures forall y | 0 <= y < |nodes| ::
                nodes[y] == old(nodes[y]).(context := if y in old(Subtree(nodes, rank, v)) then c else old(nodes[y].context))
    {
      var ps := Subtree(nodes, rank, v);
      for i := 0 to |ps|
        invariant Valid() && |nodes| == old(|nodes|) && rank == old(rank) && commanders == old(commanders)
        invariant forall y | 0 <= y < |nodes| ::
                    nodes[y] == old(nodes[y]).(context := if y in ps[..i] then c else old(nodes[y].context))
      {
        assert ps[..i + 1] == ps[..i] + [ps[i]];
        SetContext(ps[i], c);
      }
      assert ps[..|ps|] == ps;
    }

    /** `p.v.context = c`. */
    method SetContext(v: NodeId, c: NodeId)
      requires Valid() && v < |nodes|
      modifies this
      ensures Valid()
      ensures nodes == old(nodes)[v := old(nodes[v]).(context := c)]
      ensures rank == old(rank) && commanders == old(commanders)
    {
      nodes := nodes[v := nodes[v].(context := c)];
    }

    /** `p.b = s`. */
    method SetBody(v: NodeId, s: string)
      requires Valid() && v < |nodes|
      modifies this
      ensures Valid()
      ensures nodes == old(nodes)[v := old(nodes[v]).(b := s)]
      ensures rank == old(rank) && commanders == old(commanders)
    {
      nodes := nodes[v := nodes[v].(b := s)];
    }
  }
}
