/** The view's own generateGraph: the same node filter as the enhanced
    builder, then up to three random link attempts per node, each kept with
    probability 0.3 unless the pair is already linked in either orientation.
    The legacy links carry no type; the model marks them Solid, the way the
    canvas draws a link without one. */
module LegacyGraph {
  import opened Draws
  import opened Graph
  import opened NodeSelection

  /** nodes.filter(n => n.id !== v.id): every node but v, in order. */
  function Others(nodes: seq<Node>, v: Node): (r: seq<Node>)
    ensures |r| <= |nodes|
    ensures forall n :: n in r <==> n in nodes && n.id != v.id
  {
    if nodes == [] then []
    else (if nodes[0].id != v.id then [nodes[0]] else []) + Others(nodes[1..], v)
  }

  /** The nodes of v's segment other than v, in order. */
  function SameSegmentOthers(nodes: seq<Node>, v: Node): (r: seq<Node>)
    ensures |r| <= |nodes|
    ensures forall n :: n in r <==> n in nodes && n.segment == v.segment && n.id != v.id
  {
    if nodes == [] then []
    else
      (if nodes[0].segment == v.segment && nodes[0].id != v.id then [nodes[0]] else []) +
      SameSegmentOthers(nodes[1..], v)
  }

  /** A link from v to a node of the list whose pair links does not join yet
      is a new pair. */
  lemma FreshTarget(nodes: seq<Node>, links: seq<Link>, v: Node, target: Node)
    requires target.id != v.id && !Adjacent(links, v.id, target.id)
    ensures NewPair(links, Link(v.id, target.id, Solid))
  {
    forall m | m in links
      ensures !Joins(m, v.id, target.id)
    {
      var k :| 0 <= k < |links| && links[k] == m;
    }
  }

  /** What the legacy link list keeps throughout: every link a new pair when
      added, solid, between two node ids. */
  ghost predicate LegacyLinks(nodes: seq<Node>, links: seq<Link>) {
    AllNewFrom(links, 0) &&
    forall k :: 0 <= k < |links| ==>
      links[k].source in IdsOf(nodes) && links[k].target in IdsOf(nodes) && links[k].kind == Solid
  }

  /** One attempt of the inner loop (lines 145-166) for the node at index i:
      pick a pool, draw a target, and keep a link to it with probability 0.3
      when the pair is not linked yet. At most one link is added, from the
      node, and the list keeps its invariant. */
  method LinkAttempt(nodes: seq<Node>, i: nat, links: seq<Link>, rng: Rng, t0: nat)
    returns (links': seq<Link>, t: nat)
    requires i < |nodes| && LegacyLinks(nodes, links)
    ensures LegacyLinks(nodes, links')
    ensures links' == links ||
            (|links'| == |links| + 1 && links'[..|links|] == links && links'[|links|].source == nodes[i].id)
    ensures t >= t0
  {
    links', t := links, t0;
    var node := nodes[i];
    var same := SameSegmentOthers(nodes, node);
    var preferSame := Chance(rng, t, 8);
    t := t + 1;
    var pool := if preferSame && |same| > 0 then same else Others(nodes, node);
    if |pool| > 0 {
      var target := pool[Below(rng, t, |pool|)];
      t := t + 1;
      assert target in pool;
      if !Adjacent(links, node.id, target.id) {
        var keep := Chance(rng, t, 3);
        t := t + 1;
        if keep {
          var l := Link(node.id, target.id, Solid);
          FreshTarget(nodes, links, node, target);
          AppendNew(links, 0, l);
          assert node.id == IdsOf(nodes)[i];
          assert target.id in IdsOf(nodes) by {
            var m :| 0 <= m < |nodes| && nodes[m] == target;
            assert IdsOf(nodes)[m] == target.id;
          }
          links' := links + [l];
          assert links'[..|links|] == links;
          t := t + 1;
        }
      }
    }
  }

  /** generateGraph (lines 127-171): the nodes are the selected personas'
      nodes; each node makes at most three attempts, so it starts at most
      three links, and the links come grouped by node in node order
      (`from` names each link's node); every link joins two distinct node
      ids and no unordered pair is linked twice. */
  method GenerateGraph(personas: seq<Persona>, active: seq<string>, colors: map<string, string>,
                       rng: Rng, t0: nat)
    returns (g: GraphData, t: nat, ghost from: seq<nat>)
    ensures g.nodes == Selection(personas, active, colors)
    ensures |g.links| <= 3 * |g.nodes|
    ensures PerNode(g.nodes, g.links, from, |g.nodes|, 3)
    ensures AllNewFrom(g.links, 0)
    ensures forall k :: 0 <= k < |g.links| ==>
              g.links[k].source in IdsOf(g.nodes) && g.links[k].target in IdsOf(g.nodes) &&
              g.links[k].kind == Solid
    ensures t >= t0
  {
    var nodes := SelectNodes(personas, active, colors);
    var links: seq<Link> := [];
    t, from := t0, [];
    for i := 0 to |nodes|
      invariant |links| <= 3 * i
      invariant LegacyLinks(nodes, links)
      invariant PerNode(nodes, links, from, i, 3)
      invariant t >= t0
    {
      ghost var before := links;
      links, t := NodeAttempts(nodes, i, links, rng, t);
      ghost var added := links[|before|..];
      FromNode(before, links, nodes[i].id);
      PerNodeAppend(nodes, before, from, i, added, 3);
      from := from + seq(|added|, _ => i);
    }
    g := GraphData(nodes, links);
  }

  /** The body of the outer loop for the node at index i (lines 144-167):
      one to three attempts. The links so far are kept and at most three
      are appended, all from the node. */
  method NodeAttempts(nodes: seq<Node>, i: nat, links: seq<Link>, rng: Rng, t0: nat)
    returns (links': seq<Link>, t: nat)
    requires i < |nodes| && LegacyLinks(nodes, links)
    ensures LegacyLinks(nodes, links')
    ensures |links| <= |links'| <= |links| + 3 && links'[..|links|] == links
    ensures forall k :: |links| <= k < |links'| ==> links'[k].source == nodes[i].id
    ensures t >= t0
  {
    var linkCount := Below(rng, t0, 3) + 1;
    links', t := links, t0 + 1;
    for j := 0 to linkCount
      invariant |links| <= |links'| <= |links| + j
      invariant links'[..|links|] == links
      invariant forall k :: |links| <= k < |links'| ==> links'[k].source == nodes[i].id
      invariant LegacyLinks(nodes, links')
      invariant t >= t0
    {
      ghost var prev := links';
      links', t := LinkAttempt(nodes, i, links', rng, t);
      assert links'[..|links|] == prev[..|links|];
    }
  }

  /** The links appended after `before`, all from v, are the suffix. */
  lemma FromNode(before: seq<Link>, links: seq<Link>, v: string)
    requires |before| <= |links| && links[..|before|] == before
    requires forall k :: |before| <= k < |links| ==> links[k].source == v
    ensures links == before + links[|before|..]
    ensures forall m :: m in links[|before|..] ==> m.source == v
  {
    assert links == links[..|before|] + links[|before|..];
    forall m | m in links[|before|..]
      ensures m.source == v
    {
      var k :| 0 <= k < |links| - |before| && links[|before|..][k] == m;
      assert m == links[|before| + k];
    }
  }
}
