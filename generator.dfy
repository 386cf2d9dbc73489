/** generateEnhancedGraph: select the nodes, group them by segment, span
    every group with a random tree, chain the groups in a ring, then add
    random extra links. The result is connected whatever the random draws. */
module EnhancedGraph {
  import opened Draws
  import opened Graph
  import opened NodeSelection
  import opened SegmentGroups
  import opened SpanningTrees
  import opened SegmentRing
  import opened Enrichment

  /** Every node of a non-empty group is reachable from its first node. */
  ghost predicate Spans(links: seq<Link>, group: seq<Node>) {
    group != [] && forall x :: x in IdsOf(group) ==> Linked(links, group[0].id, x)
  }

  /** A ring link between two spanned groups joins their first nodes. */
  lemma RingStep(links: seq<Link>, from: seq<Node>, to: seq<Node>, l: Link)
    requires Spans(links, from) && Spans(links, to) && RingLink(l, from, to)
    requires Linked(links, l.source, l.target)
    ensures Linked(links, from[0].id, to[0].id)
  {
    assert Linked(links, from[0].id, l.source);
    assert Linked(links, to[0].id, l.target);
    LinkedTrans(links, from[0].id, l.source, l.target);
    LinkedSym(links, to[0].id, l.target);
    LinkedTrans(links, from[0].id, l.target, to[0].id);
  }

  lemma SpansGrow(links: seq<Link>, more: seq<Link>, group: seq<Node>)
    requires Spans(links, group)
    ensures Spans(links + more, group)
  {
    forall x | x in IdsOf(group)
      ensures Linked(links + more, group[0].id, x)
    {
      LinkedGrow(links, more, group[0].id, x);
    }
  }

  /** Two link lists that are each free of repeated pairs, and of which no
      link of the second joins a pair joined by the first, concatenate into a
      list free of repeated pairs. */
  lemma AllNewConcat(a: seq<Link>, b: seq<Link>)
    requires AllNewFrom(a, 0) && AllNewFrom(b, 0)
    requires forall m, l :: m in a && l in b ==> !Joins(m, l.source, l.target)
    ensures AllNewFrom(a + b, 0)
  {
    forall k | 0 <= k < |a + b|
      ensures NewPair((a + b)[..k], (a + b)[k])
    {
      if k < |a| {
        assert (a + b)[..k] == a[..k];
      } else {
        var l := b[k - |a|];
        assert (a + b)[k] == l;
        assert (a + b)[..k] == a + b[..k - |a|];
        assert NewPair(b[..k - |a|], l);
        assert l in b;
      }
    }
  }

  /** The tree phase for one group: its links join ids of that group only,
      so they share no pair with links inside other groups. */
  lemma TreeWithinGroup(group: seq<Node>, tree: seq<Link>, k: nat)
    requires group != [] && TreeOrder(group[0].id, tree)
    requires forall x :: x in Reached(group[0].id, tree) <==> x in IdsOf(group)
    requires k < |tree|
    ensures tree[k].source in IdsOf(group) && tree[k].target in IdsOf(group)
  {
    TreeEndpoints(group[0].id, tree, k);
  }

  /** Every link lies inside the group of one of the first j segments;
      owner[k] names the segment of link k. */
  ghost predicate OwnedBy(segments: seq<string>, groups: map<string, seq<Node>>,
                          j: nat, links: seq<Link>, owner: seq<nat>)
    requires j <= |segments| && forall s :: s in segments ==> s in groups
  {
    |owner| == |links| &&
    forall k :: 0 <= k < |links| ==>
      owner[k] < j &&
      links[k].source in IdsOf(groups[segments[owner[k]]]) &&
      links[k].target in IdsOf(groups[segments[owner[k]]])
  }

  /** A tree inside group j joins no pair joined by a link inside an
      earlier group: node ids are unique, so groups share no id. */
  lemma TreeCrossFree(nodes: seq<Node>, segments: seq<string>, groups: map<string, seq<Node>>,
                      j: nat, links: seq<Link>, owner: seq<nat>, tree: seq<Link>)
    requires UniqueIds(nodes) && GroupsOf(nodes, segments, groups) && j < |segments|
    requires OwnedBy(segments, groups, j, links, owner)
    requires forall k :: 0 <= k < |tree| ==>
               tree[k].source in IdsOf(groups[segments[j]]) && tree[k].target in IdsOf(groups[segments[j]])
    ensures forall m, l :: m in links && l in tree ==> !Joins(m, l.source, l.target)
  {
    SegmentsDistinct(nodes);
    forall m, l | m in links && l in tree
      ensures !Joins(m, l.source, l.target)
    {
      var a :| 0 <= a < |links| && links[a] == m;
      var b :| 0 <= b < |tree| && tree[b] == l;
      var s := segments[owner[a]];
      assert s != segments[j];
      assert m.source in IdsOf(groups[s]) && m.target in IdsOf(groups[s]);
      if m.source == l.source || m.target == l.source {
        GroupIdsDisjoint(nodes, segments[j], s, l.source);
      }
    }
  }

  /** After group j's tree, every link lies inside the group of a segment
      up to j. */
  lemma TreesOwners(segments: seq<string>, groups: map<string, seq<Node>>,
                    j: nat, links: seq<Link>, owner: seq<nat>, tree: seq<Link>)
    requires j < |segments| && forall s :: s in segments ==> s in groups
    requires OwnedBy(segments, groups, j, links, owner)
    requires forall k :: 0 <= k < |tree| ==>
               tree[k].source in IdsOf(groups[segments[j]]) && tree[k].target in IdsOf(groups[segments[j]])
    ensures OwnedBy(segments, groups, j + 1, links + tree, owner + seq(|tree|, _ => j))
  {
    var links', owner' := links + tree, owner + seq(|tree|, _ => j);
    forall k | 0 <= k < |links'|
      ensures owner'[k] < j + 1 &&
              links'[k].source in IdsOf(groups[segments[owner'[k]]]) &&
              links'[k].target in IdsOf(groups[segments[owner'[k]]])
    {
      if k >= |links| {
        assert links'[k] == tree[k - |links|] && owner'[k] == j;
      } else {
        assert links'[k] == links[k] && owner'[k] == owner[k];
      }
    }
  }

  /** After group j's tree, the groups of segments up to j are spanned. */
  lemma TreesSpan(segments: seq<string>, groups: map<string, seq<Node>>,
                  j: nat, links: seq<Link>, tree: seq<Link>)
    requires j < |segments| && forall s :: s in segments ==> s in groups
    requires forall i :: 0 <= i < j ==> Spans(links, groups[segments[i]])
    requires var group := groups[segments[j]];
             group != [] && TreeOrder(group[0].id, tree) &&
             forall x :: x in Reached(group[0].id, tree) <==> x in IdsOf(group)
    ensures forall i :: 0 <= i < j + 1 ==> Spans(links + tree, groups[segments[i]])
  {
    var group := groups[segments[j]];
    forall i | 0 <= i < j + 1
      ensures Spans(links + tree, groups[segments[i]])
    {
      if i < j {
        SpansGrow(links, tree, groups[segments[i]]);
      } else {
        forall x | x in IdsOf(group)
          ensures Linked(links + tree, group[0].id, x)
        {
          TreeReaches(group[0].id, tree, x);
          LinkedGrowFront(links, tree, group[0].id, x);
        }
      }
    }
  }

  /** One round of step 3: appending group j's spanning tree keeps every
      link inside a group, every link a new pair, the groups so far spanned,
      and the link count at the group sizes minus one per group. */
  lemma TreeStep(nodes: seq<Node>, segments: seq<string>, groups: map<string, seq<Node>>,
                 j: nat, links: seq<Link>, owner: seq<nat>, tree: seq<Link>)
    requires UniqueIds(nodes) && GroupsOf(nodes, segments, groups) && j < |segments|
    requires OwnedBy(segments, groups, j, links, owner) && AllNewFrom(links, 0)
    requires forall i :: 0 <= i < j ==> Spans(links, groups[segments[i]])
    requires |links| + j == SumSizes(nodes, segments[..j])
    requires var group := groups[segments[j]];
             group != [] ==> |tree| == |group| - 1 && TreeOrder(group[0].id, tree) &&
                             forall x :: x in Reached(group[0].id, tree) <==> x in IdsOf(group)
    ensures OwnedBy(segments, groups, j + 1, links + tree, owner + seq(|tree|, _ => j))
    ensures AllNewFrom(links + tree, 0)
    ensures forall i :: 0 <= i < j + 1 ==> Spans(links + tree, groups[segments[i]])
    ensures |links + tree| + j + 1 == SumSizes(nodes, segments[..j + 1])
  {
    SegmentsOfMembers(nodes, segments[j]);
    TreeStepNew(nodes, segments, groups, j, links, owner, tree);
    TreesSpan(segments, groups, j, links, tree);
    var done := segments[..j + 1];
    assert done[..j] == segments[..j] && done[j] == segments[j];
    assert SumSizes(nodes, done) == SumSizes(nodes, segments[..j]) + |groups[segments[j]]|;
  }

  /** The link half of TreeStep: group j's tree links lie inside group j
      and are new pairs after the links so far. */
  lemma TreeStepNew(nodes: seq<Node>, segments: seq<string>, groups: map<string, seq<Node>>,
                    j: nat, links: seq<Link>, owner: seq<nat>, tree: seq<Link>)
    requires UniqueIds(nodes) && GroupsOf(nodes, segments, groups) && j < |segments|
    requires OwnedBy(segments, groups, j, links, owner) && AllNewFrom(links, 0)
    requires var group := groups[segments[j]];
             group != [] && TreeOrder(group[0].id, tree) &&
             forall x :: x in Reached(group[0].id, tree) <==> x in IdsOf(group)
    ensures OwnedBy(segments, groups, j + 1, links + tree, owner + seq(|tree|, _ => j))
    ensures AllNewFrom(links + tree, 0)
  {
    var group := groups[segments[j]];
    forall k | 0 <= k < |tree|
      ensures tree[k].source in IdsOf(group) && tree[k].target in IdsOf(group)
    {
      TreeWithinGroup(group, tree, k);
    }
    TreeLinksNew(group[0].id, tree);
    TreeCrossFree(nodes, segments, groups, j, links, owner, tree);
    AllNewConcat(links, tree);
    TreesOwners(segments, groups, j, links, owner, tree);
  }

  /** Links that each lie inside some group join node ids. */
  lemma OwnedEndpoints(nodes: seq<Node>, segments: seq<string>, groups: map<string, seq<Node>>,
                       links: seq<Link>, owner: seq<nat>)
    requires GroupsOf(nodes, segments, groups)
    requires OwnedBy(segments, groups, |segments|, links, owner)
    ensures forall k :: 0 <= k < |links| ==> links[k].source in IdsOf(nodes) && links[k].target in IdsOf(nodes)
  {
    forall k | 0 <= k < |links|
      ensures links[k].source in IdsOf(nodes) && links[k].target in IdsOf(nodes)
    {
      var group := groups[segments[owner[k]]];
      forall n | n in group
        ensures n in nodes
      {
        OfSegmentMembers(nodes, segments[owner[k]], n);
      }
      IdsSubset(group, nodes, links[k].source);
      IdsSubset(group, nodes, links[k].target);
    }
  }

  /** The state after the trees of the first j groups: every link is a
      solid new pair inside one of those groups, those groups are spanned,
      and there is one link fewer than nodes per group. */
  ghost predicate TreesSoFar(nodes: seq<Node>, segments: seq<string>, groups: map<string, seq<Node>>,
                             j: nat, links: seq<Link>, owner: seq<nat>)
    requires GroupsOf(nodes, segments, groups) && j <= |segments|
  {
    OwnedBy(segments, groups, j, links, owner) &&
    (forall k :: 0 <= k < |links| ==> links[k].kind == Solid) &&
    AllNewFrom(links, 0) &&
    (forall i :: 0 <= i < j ==> Spans(links, groups[segments[i]])) &&
    |links| + j == SumSizes(nodes, segments[..j])
  }

  /** One round of step 3 (lines 42-71 for group j): append the group's
      random spanning tree. */
  method AddTree(nodes: seq<Node>, segments: seq<string>, groups: map<string, seq<Node>>, j: nat,
                 links: seq<Link>, ghost owner: seq<nat>, rng: Rng, t0: nat)
    returns (links': seq<Link>, ghost owner': seq<nat>, t: nat)
    requires UniqueIds(nodes) && GroupsOf(nodes, segments, groups) && j < |segments|
    requires TreesSoFar(nodes, segments, groups, j, links, owner)
    ensures TreesSoFar(nodes, segments, groups, j + 1, links', owner')
    ensures t >= t0
  {
    var group := groups[segments[j]];
    ForGroupUnique(nodes, segments[j]);
    var tree;
    tree, t := SpanningTree(group, rng, t0);
    TreeStep(nodes, segments, groups, j, links, owner, tree);
    links' := links + tree;
    owner' := owner + seq(|tree|, _ => j);
  }

  /** Step 3 (lines 41-72): a spanning tree for every group, in the order of
      the segment list. */
  method AddTrees(nodes: seq<Node>, segments: seq<string>, groups: map<string, seq<Node>>, rng: Rng, t0: nat)
    returns (links: seq<Link>, t: nat)
    requires UniqueIds(nodes) && GroupsOf(nodes, segments, groups)
    ensures |links| == |nodes| - |segments|
    ensures forall k :: 0 <= k < |links| ==> links[k].kind == Solid
    ensures AllNewFrom(links, 0)
    ensures forall k :: 0 <= k < |links| ==> links[k].source in IdsOf(nodes) && links[k].target in IdsOf(nodes)
    ensures forall s :: s in segments ==> Spans(links, groups[s])
    ensures t >= t0
  {
    links, t := [], t0;
    ghost var owner: seq<nat> := [];
    for j := 0 to |segments|
      invariant TreesSoFar(nodes, segments, groups, j, links, owner)
      invariant t >= t0
    {
      links, owner, t := AddTree(nodes, segments, groups, j, links, owner, rng, t);
    }
    assert segments[..|segments|] == segments;
    GroupsPartition(nodes);
    OwnedEndpoints(nodes, segments, groups, links, owner);
    forall s | s in segments
      ensures Spans(links, groups[s])
    {
      var i :| 0 <= i < |segments| && segments[i] == s;
    }
  }

  /** A segment's group inherits unique ids from the node list. */
  lemma ForGroupUnique(nodes: seq<Node>, segment: string)
    requires UniqueIds(nodes)
    ensures UniqueIds(OfSegment(nodes, segment))
  {
    var g := OfSegment(nodes, segment);
    forall a, b | 0 <= a < b < |g|
      ensures g[a].id != g[b].id
    {
      OfSegmentMembers(nodes, segment, g[a]);
      OfSegmentMembers(nodes, segment, g[b]);
      if g[a].id == g[b].id {
        SameIdSameNode(nodes, g[a], g[b]);
        OfSegmentOrdered(nodes, segment, a, b);
      }
    }
  }

  /** Distinct positions of a group hold distinct nodes when node ids are
      unique. */
  lemma {:induction false} OfSegmentOrdered(nodes: seq<Node>, segment: string, a: nat, b: nat)
    requires UniqueIds(nodes)
    requires a < b < |OfSegment(nodes, segment)|
    ensures OfSegment(nodes, segment)[a] != OfSegment(nodes, segment)[b]
  {
    var init := nodes[..|nodes| - 1];
    var last := nodes[|nodes| - 1];
    var g := OfSegment(init, segment);
    assert UniqueIds(init) by {
      forall i, j | 0 <= i < j < |init|
        ensures init[i].id != init[j].id
      {
        assert init[i] == nodes[i] && init[j] == nodes[j];
      }
    }
    if b < |g| {
      OfSegmentOrdered(init, segment, a, b);
    } else {
      OfSegmentMembers(init, segment, g[a]);
      var i :| 0 <= i < |init| && init[i] == g[a];
      assert nodes[i] == g[a];
    }
  }

  lemma ModBelow(a: nat, n: nat)
    requires a < n
    ensures a % n == a
  {
  }

  /** The first node of a segment's group, its spanning-tree root. */
  function Root(nodes: seq<Node>, segment: string): string {
    var g := OfSegment(nodes, segment);
    if g == [] then "" else g[0].id
  }

  /** The roots of the groups are chained along the ring: the root of the
      first segment reaches the root of segment i through the trees and the
      ring links 0 .. i-1. */
  lemma {:induction false} RootsChained(nodes: seq<Node>, segments: seq<string>,
                                        tree: seq<Link>, ring: seq<Link>, i: nat)
    requires forall r :: 0 <= r < |segments| ==> Spans(tree, OfSegment(nodes, segments[r]))
    requires RingJoins(ring, nodes, segments) && i < |segments|
    ensures Linked(tree + ring, Root(nodes, segments[0]), Root(nodes, segments[i]))
  {
    var links := tree + ring;
    if i == 0 {
      LinkedSelf(links, Root(nodes, segments[0]));
    } else {
      var r := i - 1;
      RootsChained(nodes, segments, tree, ring, r);
      var from := OfSegment(nodes, segments[r]);
      var to := OfSegment(nodes, segments[i]);
      ModBelow(i, |segments|);
      assert Spans(tree, from) && Spans(tree, to);
      assert Root(nodes, segments[r]) == from[0].id && Root(nodes, segments[i]) == to[0].id;
      assert (r + 1) % |segments| == i;
      assert RingLink(ring[r], from, to);
      ChainStep(tree, ring, from, to, r, Root(nodes, segments[0]));
    }
  }

  /** One step along the ring: a node that reaches the first node of one
      spanned group reaches the first node of the next. */
  lemma ChainStep(tree: seq<Link>, ring: seq<Link>, from: seq<Node>, to: seq<Node>, r: nat, root: string)
    requires Spans(tree, from) && Spans(tree, to)
    requires r < |ring| && RingLink(ring[r], from, to)
    requires Linked(tree + ring, root, from[0].id)
    ensures Linked(tree + ring, root, to[0].id)
  {
    var links := tree + ring;
    SpansGrow(tree, ring, from);
    SpansGrow(tree, ring, to);
    assert links[|tree| + r] == ring[r];
    LinkedByLink(links, |tree| + r);
    RingStep(links, from, to, ring[r]);
    LinkedTrans(links, root, from[0].id, to[0].id);
  }

  /** ring[i] runs from the group of segment i to the group of segment
      i + 1, the last wrapping round to the first. */
  predicate RingJoins(ring: seq<Link>, nodes: seq<Node>, segments: seq<string>) {
    |ring| == |segments| &&
    forall i :: 0 <= i < |ring| ==>
      RingLink(ring[i], OfSegment(nodes, segments[i]), OfSegment(nodes, segments[(i + 1) % |segments|]))
  }

  /** The ring step does no duplicate check: with a single node, and so a
      single segment, its one link is a self-loop. */
  lemma RingSelfLoop(a: Node, ring: seq<Link>)
    requires RingJoins(ring, [a], SegmentsOf([a]))
    ensures |ring| == 1 && ring[0].source == a.id && ring[0].target == a.id
  {
    assert SegmentsOf([a]) == [a.segment] by {
      assert [a][..0] == [];
    }
    assert OfSegment([a], a.segment) == [a];
    assert IdsOf([a]) == [a.id];
  }

  /** Two nodes of different segments form two one-node groups. */
  lemma PairGroups(a: Node, b: Node)
    requires a.segment != b.segment
    ensures SegmentsOf([a, b]) == [a.segment, b.segment]
    ensures OfSegment([a, b], a.segment) == [a] && OfSegment([a, b], b.segment) == [b]
  {
    assert [a, b][..1] == [a] && [a][..0] == [];
    assert SegmentsOf([a]) == [a.segment];
    assert a.segment !in [b.segment];
  }

  /** With two single-node segments the two ring links join the same pair,
      once in each direction. */
  lemma RingRepeatsPair(a: Node, b: Node, ring: seq<Link>)
    requires a.segment != b.segment
    requires RingJoins(ring, [a, b], SegmentsOf([a, b]))
    ensures |ring| == 2 && Joins(ring[0], ring[1].source, ring[1].target)
  {
    PairGroups(a, b);
    TwoRing(ring, [a, b], SegmentsOf([a, b]), [a], [b]);
    SingleLink(ring[0], a, b);
    SingleLink(ring[1], b, a);
  }

  /** A ring link between two one-node groups joins the two nodes. */
  lemma SingleLink(l: Link, a: Node, b: Node)
    requires RingLink(l, [a], [b])
    ensures l.source == a.id && l.target == b.id
  {
    assert IdsOf([a]) == [a.id] && IdsOf([b]) == [b.id];
  }

  /** A ring over two groups runs from the first to the second and back. */
  lemma TwoRing(ring: seq<Link>, nodes: seq<Node>, segments: seq<string>, ga: seq<Node>, gb: seq<Node>)
    requires RingJoins(ring, nodes, segments) && |segments| == 2
    requires OfSegment(nodes, segments[0]) == ga && OfSegment(nodes, segments[1]) == gb
    ensures |ring| == 2 && RingLink(ring[0], ga, gb) && RingLink(ring[1], gb, ga)
  {
    ModBelow(1, 2);
    assert (1 + 1) % 2 == 0;
  }

  /** With every group spanned by the trees and the ring joining segment i to
      segment i + 1 (mod k), any node reaches any other. */
  lemma RingConnects(nodes: seq<Node>, segments: seq<string>, groups: map<string, seq<Node>>,
                     tree: seq<Link>, ring: seq<Link>, a: Node, b: Node)
    requires GroupsOf(nodes, segments, groups)
    requires forall s :: s in segments ==> Spans(tree, groups[s])
    requires RingJoins(ring, nodes, segments)
    requires a in nodes && b in nodes
    ensures Linked(tree + ring, a.id, b.id)
  {
    var links := tree + ring;
    OwnGroup(nodes, segments, groups, a);
    OwnGroup(nodes, segments, groups, b);
    assert forall r :: 0 <= r < |segments| ==> segments[r] in segments;
    var i :| 0 <= i < |segments| && segments[i] == a.segment;
    var j :| 0 <= j < |segments| && segments[j] == b.segment;
    var root := Root(nodes, segments[0]);
    var ga := groups[segments[i]];
    var gb := groups[segments[j]];
    RootsChained(nodes, segments, tree, ring, i);
    RootsChained(nodes, segments, tree, ring, j);
    SpansGrow(tree, ring, ga);
    SpansGrow(tree, ring, gb);
    LinkedTrans(links, root, ga[0].id, a.id);
    LinkedTrans(links, root, gb[0].id, b.id);
    LinkedSym(links, root, a.id);
    LinkedTrans(links, a.id, root, b.id);
  }

  /** Step 4 as the builder uses it: every group is non-empty, so the ring
      has one link per segment. */
  method Ring(nodes: seq<Node>, segments: seq<string>, groups: map<string, seq<Node>>, rng: Rng, t0: nat)
    returns (ring: seq<Link>, t: nat)
    requires GroupsOf(nodes, segments, groups)
    ensures RingJoins(ring, nodes, segments)
    ensures forall k :: 0 <= k < |ring| ==> ring[k].kind == Dashed
    ensures forall k :: 0 <= k < |ring| ==> ring[k].source in IdsOf(nodes) && ring[k].target in IdsOf(nodes)
    ensures t >= t0
  {
    forall s | s in segments
      ensures groups[s] != []
    {
      SegmentsOfMembers(nodes, s);
    }
    ring, t := AddRing(segments, groups, rng, t0);
    forall k | 0 <= k < |ring|
      ensures ring[k].source in IdsOf(nodes) && ring[k].target in IdsOf(nodes)
    {
      var from := groups[segments[k]];
      var to := groups[segments[(k + 1) % |segments|]];
      OfSegmentSubset(nodes, segments[k]);
      OfSegmentSubset(nodes, segments[(k + 1) % |segments|]);
      IdsSubset(from, nodes, ring[k].source);
      IdsSubset(to, nodes, ring[k].target);
    }
  }

  lemma OfSegmentSubset(nodes: seq<Node>, segment: string)
    ensures forall n :: n in OfSegment(nodes, segment) ==> n in nodes
  {
    forall n | n in OfSegment(nodes, segment)
      ensures n in nodes
    {
      OfSegmentMembers(nodes, segment, n);
    }
  }

  lemma PrefixParts(links: seq<Link>, a: seq<Link>, b: seq<Link>)
    requires |a + b| <= |links| && links[..|a + b|] == a + b
    ensures links[..|a|] == a && links[|a|..|a| + |b|] == b
  {
    assert forall k :: 0 <= k < |a| ==> links[k] == (a + b)[k];
    forall k | 0 <= k < |b|
      ensures links[|a| + k] == b[k]
    {
      assert links[|a| + k] == (a + b)[|a| + k];
    }
  }

  /** Links appended after a connected prefix leave it connected. */
  lemma ConnectedAfter(nodes: seq<Node>, segments: seq<string>, groups: map<string, seq<Node>>,
                       tree: seq<Link>, ring: seq<Link>, links: seq<Link>)
    requires GroupsOf(nodes, segments, groups)
    requires forall s :: s in segments ==> Spans(tree, groups[s])
    requires RingJoins(ring, nodes, segments)
    requires |tree + ring| <= |links| && links[..|tree + ring|] == tree + ring
    ensures forall a, b :: a in nodes && b in nodes ==> Linked(links, a.id, b.id)
  {
    var base := tree + ring;
    assert base + links[|base|..] == links;
    forall a, b | a in nodes && b in nodes
      ensures Linked(links, a.id, b.id)
    {
      RingConnects(nodes, segments, groups, tree, ring, a, b);
      LinkedGrow(base, links[|base|..], a.id, b.id);
    }
  }

  /** generateEnhancedGraph (lines 5-179). The nodes are the selection of
      step 1. Every node reaches every other node along the links. The
      first n - k links (n nodes, k segments) are the solid tree links, none
      a self-loop or a repeated pair; the next k are the dashed ring links,
      link i from the group of segment i to that of segment i + 1 (mod k);
      every later link was a new pair when added; all end at node ids; the
      later links come grouped by node in node order (`from` names each
      one's node), at most seven per node. */
  method GenerateEnhancedGraph(personas: seq<Persona>, active: seq<string>, colors: map<string, string>, rng: Rng)
    returns (g: GraphData, ghost from: seq<nat>)
    requires UniquePersonaIds(personas)
    ensures g.nodes == Selection(personas, active, colors)
    ensures forall k :: 0 <= k < |g.links| ==>
              g.links[k].source in IdsOf(g.nodes) && g.links[k].target in IdsOf(g.nodes)
    ensures |SegmentsOf(g.nodes)| <= |g.nodes| <= |g.links| <= 8 * |g.nodes|
    ensures forall i :: 0 <= i < |g.nodes| - |SegmentsOf(g.nodes)| ==> g.links[i].kind == Solid
    ensures AllNewFrom(g.links[..|g.nodes| - |SegmentsOf(g.nodes)|], 0)
    ensures RingJoins(g.links[|g.nodes| - |SegmentsOf(g.nodes)|..|g.nodes|], g.nodes, SegmentsOf(g.nodes))
    ensures AllNewFrom(g.links, |g.nodes|)
    ensures PerNode(g.nodes, g.links[|g.nodes|..], from, |g.nodes|, 7)
    ensures forall a, b :: a in g.nodes && b in g.nodes ==> Linked(g.links, a.id, b.id)
  {
    var nodes := SelectNodes(personas, active, colors);
    assert UniqueIds(nodes) by {
      SelectionNodes(personas, active, colors);
    }
    var segments, groups := GroupBySegment(nodes);
    var tree, t := AddTrees(nodes, segments, groups, rng, 0);
    var ring;
    ring, t := Ring(nodes, segments, groups, rng, t);
    var links;
    links, t, from := Enrich(nodes, segments, groups, tree + ring, rng, t);
    Assembled(nodes, segments, groups, tree, ring, links, from);
    g := GraphData(nodes, links);
  }

  /** The five steps put together: the tree, ring and enrichment facts
      about their slices give the whole graph's. */
  lemma Assembled(nodes: seq<Node>, segments: seq<string>, groups: map<string, seq<Node>>,
                  tree: seq<Link>, ring: seq<Link>, links: seq<Link>, from: seq<nat>)
    requires GroupsOf(nodes, segments, groups)
    requires |tree| == |nodes| - |segments|
    requires forall k :: 0 <= k < |tree| ==> tree[k].kind == Solid
    requires AllNewFrom(tree, 0)
    requires forall k :: 0 <= k < |tree| ==> tree[k].source in IdsOf(nodes) && tree[k].target in IdsOf(nodes)
    requires forall s :: s in segments ==> Spans(tree, groups[s])
    requires RingJoins(ring, nodes, segments)
    requires forall k :: 0 <= k < |ring| ==> ring[k].source in IdsOf(nodes) && ring[k].target in IdsOf(nodes)
    requires |tree + ring| <= |links| <= |tree + ring| + 7 * |nodes|
    requires links[..|tree + ring|] == tree + ring
    requires PerNode(nodes, links[|tree + ring|..], from, |nodes|, 7)
    requires AllNewFrom(links, |tree + ring|)
    requires forall k :: |tree + ring| <= k < |links| ==>
               links[k].source in IdsOf(nodes) && links[k].target in IdsOf(nodes)
    ensures forall k :: 0 <= k < |links| ==>
              links[k].source in IdsOf(nodes) && links[k].target in IdsOf(nodes)
    ensures |SegmentsOf(nodes)| <= |nodes| <= |links| <= 8 * |nodes|
    ensures forall i :: 0 <= i < |nodes| - |SegmentsOf(nodes)| ==> links[i].kind == Solid
    ensures AllNewFrom(links[..|nodes| - |SegmentsOf(nodes)|], 0)
    ensures RingJoins(links[|nodes| - |SegmentsOf(nodes)|..|nodes|], nodes, SegmentsOf(nodes))
    ensures AllNewFrom(links, |nodes|)
    ensures PerNode(nodes, links[|nodes|..], from, |nodes|, 7)
    ensures forall a, b :: a in nodes && b in nodes ==> Linked(links, a.id, b.id)
  {
    var base := tree + ring;
    ConnectedAfter(nodes, segments, groups, tree, ring, links);
    PrefixParts(links, tree, ring);
    assert segments == SegmentsOf(nodes);
    var cut := |nodes| - |SegmentsOf(nodes)|;
    assert cut == |tree| && cut + |ring| == |nodes| && |base| == |nodes|;
    assert links[..cut] == tree;
    assert links[cut..|nodes|] == ring;
    forall k | 0 <= k < cut
      ensures links[k].kind == Solid
    {
      assert links[k] == links[..cut][k];
    }
    forall k | 0 <= k < |base|
      ensures links[k].source in IdsOf(nodes) && links[k].target in IdsOf(nodes)
    {
      assert links[k] == links[..|base|][k] == base[k];
    }
  }
}
