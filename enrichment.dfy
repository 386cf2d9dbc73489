/** Step 5 of generateEnhancedGraph: extra links for visual density. Each
    node gets a tiered budget of same-segment links to nodes it is not yet
    adjacent to, and with probability 0.3 one link to a random node of
    another segment, again only when not yet adjacent. */
module Enrichment {
  import opened Draws
  import opened Graph
  import opened SegmentGroups

  function Min(a: nat, b: nat): nat { if a <= b then a else b }

  /** The extra-connection budget of the node at index i, from one draw d:
      hubs (every tenth node) get 4 to 6, every third other node 2 or 3, the
      rest 1 with probability 0.8 and otherwise 0. */
  function ExtraConnections(i: nat, d: nat): (budget: nat)
    ensures i % 10 == 0 ==> 4 <= budget <= 6
    ensures i % 10 != 0 && i % 3 == 0 ==> 2 <= budget <= 3
    ensures i % 10 != 0 && i % 3 != 0 ==> budget <= 1
  {
    if i % 10 == 0 then d % 3 + 4
    else if i % 3 == 0 then d % 2 + 2
    else if d % 10 < 8 then 1 else 0
  }

  /** Every budget the tiers allow is produced by some draw, so the ranges
      in ExtraConnections's contract are exact. */
  lemma BudgetAttainable(i: nat, budget: nat)
    requires i % 10 == 0 ==> 4 <= budget <= 6
    requires i % 10 != 0 && i % 3 == 0 ==> 2 <= budget <= 3
    requires i % 10 != 0 && i % 3 != 0 ==> budget <= 1
    ensures exists d :: ExtraConnections(i, d) == budget
  {
    if i % 10 == 0 {
      assert ExtraConnections(i, budget - 4) == budget;
    } else if i % 3 == 0 {
      assert ExtraConnections(i, budget - 2) == budget;
    } else if budget == 1 {
      assert ExtraConnections(i, 0) == budget;
    } else {
      assert ExtraConnections(i, 9) == budget;
    }
  }

  /** The ids linked to v: for each link touching v, its other end (lines
      115-124). */
  function Neighbours(links: seq<Link>, v: string): (r: set<string>)
    ensures forall x :: x in r ==> Adjacent(links, v, x)
  {
    set m | m in links && (m.source == v || m.target == v) :: if m.source == v then m.target else m.source
  }

  lemma NeighbourOf(links: seq<Link>, m: Link, v: string, x: string)
    requires m in links && Joins(m, v, x)
    ensures x in Neighbours(links, v)
  {
    var other := if m.source == v then m.target else m.source;
    assert other in Neighbours(links, v);
  }

  /** The targets of a list of links. */
  function Targets(links: seq<Link>): set<string> {
    set m | m in links :: m.target
  }

  /** The group's nodes other than the one with the given id (line 112). */
  function WithoutId(nodes: seq<Node>, id: string): (r: seq<Node>)
    ensures |r| <= |nodes|
    ensures id in IdsOf(nodes) ==> |r| < |nodes|
    ensures forall n :: n in r <==> n in nodes && n.id != id
  {
    if nodes == [] then []
    else if nodes[0].id == id then WithoutId(nodes[1..], id)
    else
      assert id in IdsOf(nodes) ==> id in IdsOf(nodes[1..]) by {
        if id in IdsOf(nodes) {
          var k :| 0 <= k < |nodes| && IdsOf(nodes)[k] == id;
          assert IdsOf(nodes[1..])[k - 1] == id;
        }
      }
      [nodes[0]] + WithoutId(nodes[1..], id)
  }

  /** The nodes whose ids are not in the given set (line 129). */
  function NotIn(nodes: seq<Node>, ids: set<string>): (r: seq<Node>)
    ensures forall n :: n in r <==> n in nodes && n.id !in ids
  {
    if nodes == [] then []
    else if nodes[0].id in ids then NotIn(nodes[1..], ids)
    else [nodes[0]] + NotIn(nodes[1..], ids)
  }

  /** The segments other than the given one (line 152). */
  function OtherSegments(segments: seq<string>, segment: string): (r: seq<string>)
    ensures forall s :: s in r <==> s in segments && s != segment
  {
    if segments == [] then []
    else if segments[0] == segment then OtherSegments(segments[1..], segment)
    else [segments[0]] + OtherSegments(segments[1..], segment)
  }

  /** A link from v to x is a new pair when x is not v, not a neighbour of v
      in links, and not a target of the links from v added since. */
  lemma FreshLink(links: seq<Link>, added: seq<Link>, v: string, x: string)
    requires x != v
    requires x !in Neighbours(links, v) && x !in Targets(added)
    requires forall m :: m in added ==> m.source == v
    ensures forall kind :: NewPair(links + added, Link(v, x, kind))
  {
    forall m | m in links + added
      ensures !Joins(m, v, x)
    {
      if m in links {
        if Joins(m, v, x) { NeighbourOf(links, m, v, x); }
      } else {
        assert m.target in Targets(added);
      }
    }
  }

  /** The same-segment part of step 5 for one node (lines 127-147). */
  method IntraLinks(node: Node, budget: nat, same: seq<Node>, links: seq<Link>, rng: Rng, t0: nat)
    returns (intra: seq<Link>, existing: set<string>, t: nat)
    requires forall n :: n in same ==> n.id != node.id
    ensures |intra| <= Min(budget, |same|)
    ensures forall m :: m in intra ==> m.source == node.id && m.target in IdsOf(same)
    ensures AllNewFrom(links + intra, |links|)
    ensures existing == Neighbours(links, node.id) + Targets(intra)
    ensures t >= t0
  {
    intra, t := [], t0;
    existing := Neighbours(links, node.id);
    var j := 0;
    while j < Min(budget, |same|)
      invariant j == |intra| <= Min(budget, |same|)
      invariant forall m :: m in intra ==> m.source == node.id && m.target in IdsOf(same)
      invariant AllNewFrom(links + intra, |links|)
      invariant existing == Neighbours(links, node.id) + Targets(intra)
      invariant t >= t0
    {
      var available := NotIn(same, existing);
      if |available| == 0 {
        break;
      }
      // Draws: the target, then value (not modelled), then the type
      // ("dashed" above 0.8), then strength (not modelled).
      var target := available[Below(rng, t, |available|)];
      var kind := if Chance(rng, t + 2, 8) then Solid else Dashed;
      t := t + 4;
      var l := Link(node.id, target.id, kind);
      IntraStep(links, intra, node.id, same, target, kind);
      intra := intra + [l];
      existing := existing + {target.id};
      j := j + 1;
    }
  }

  /** One same-segment link: a link from v to a group member that is
      neither a neighbour of v nor already a target keeps the added links new
      pairs from v into the group, and adds its target to the targets. */
  lemma IntraStep(links: seq<Link>, intra: seq<Link>, v: string, same: seq<Node>, target: Node, kind: LinkKind)
    requires target in same && target.id != v
    requires target.id !in Neighbours(links, v) && target.id !in Targets(intra)
    requires AllNewFrom(links + intra, |links|)
    requires forall m :: m in intra ==> m.source == v && m.target in IdsOf(same)
    ensures AllNewFrom(links + (intra + [Link(v, target.id, kind)]), |links|)
    ensures forall m :: m in intra + [Link(v, target.id, kind)] ==> m.source == v && m.target in IdsOf(same)
    ensures Targets(intra + [Link(v, target.id, kind)]) == Targets(intra) + {target.id}
  {
    var l := Link(v, target.id, kind);
    FreshLink(links, intra, v, target.id);
    AppendNew(links + intra, |links|, l);
    assert links + intra + [l] == links + (intra + [l]);
    var i :| 0 <= i < |same| && same[i] == target;
    assert IdsOf(same)[i] == target.id;
  }

  /** The cross-segment part of step 5 for one node (lines 150-175). */
  method CrossLink(nodes: seq<Node>, node: Node, segments: seq<string>, groups: map<string, seq<Node>>,
                   links: seq<Link>, existing: set<string>, rng: Rng, t0: nat)
    returns (cross: seq<Link>, t: nat)
    requires UniqueIds(nodes) && node in nodes && GroupsOf(nodes, segments, groups)
    ensures |cross| <= 1
    ensures forall m :: m in cross ==>
              m.source == node.id && m.kind == Dashed && m.target !in existing &&
              m.target in IdsOf(nodes) && m.target !in IdsOf(OfSegment(nodes, node.segment))
    ensures t >= t0
  {
    cross, t := [], t0;
    var coin := Chance(rng, t, 3);
    t := t + 1;
    if coin {
      var others := OtherSegments(segments, node.segment);
      if |others| > 0 {
        var segment := others[Below(rng, t, |others|)];
        var targets := groups[segment];
        t := t + 1;
        if |targets| > 0 {
          var target := targets[Below(rng, t, |targets|)];
          t := t + 1;
          if target.id !in existing {
            OfSegmentMembers(nodes, segment, target);
            var i :| 0 <= i < |nodes| && nodes[i] == target;
            assert IdsOf(nodes)[i] == target.id;
            assert target.id in IdsOf(OfSegment(nodes, segment)) by {
              var k :| 0 <= k < |targets| && targets[k] == target;
              assert IdsOf(targets)[k] == target.id;
            }
            GroupIdsDisjoint(nodes, segment, node.segment, target.id);
            cross := [Link(node.id, target.id, Dashed)];
          }
        }
      }
    }
  }

  lemma IdsSubset(a: seq<Node>, b: seq<Node>, x: string)
    requires forall n :: n in a ==> n in b
    requires x in IdsOf(a)
    ensures x in IdsOf(b)
  {
    var i :| 0 <= i < |a| && IdsOf(a)[i] == x;
    assert a[i] in b;
    var j :| 0 <= j < |b| && b[j] == a[i];
    assert IdsOf(b)[j] == x;
  }

  /** Extending a list whose tail from `from` on is all new pairs by links
      that are new against it keeps the whole tail new. */
  lemma AllNewExtend(links: seq<Link>, more: seq<Link>, from: nat)
    requires from <= |links|
    requires AllNewFrom(links, from) && AllNewFrom(links + more, |links|)
    ensures AllNewFrom(links + more, from)
  {
    forall k | from <= k < |links|
      ensures NewPair((links + more)[..k], (links + more)[k])
    {
      assert (links + more)[..k] == links[..k];
    }
  }

  /** A node's segment has a group, and the node's id is in it. */
  lemma OwnGroup(nodes: seq<Node>, segments: seq<string>, groups: map<string, seq<Node>>, node: Node)
    requires node in nodes && GroupsOf(nodes, segments, groups)
    ensures node.segment in groups && groups[node.segment] == OfSegment(nodes, node.segment)
    ensures node.id in IdsOf(groups[node.segment])
  {
    var group := OfSegment(nodes, node.segment);
    OfSegmentMembers(nodes, node.segment, node);
    SegmentsOfMembers(nodes, node.segment);
    var k :| 0 <= k < |group| && group[k] == node;
    assert IdsOf(group)[k] == node.id;
  }

  /** Step 5 for the node at index i (lines 99-175): the budget draw, the
      same-segment links, then the chance of one cross-segment link. Every
      added link starts at the node and is a new pair; the same-segment ones
      stay within the budget and the node's segment, the cross-segment one is
      dashed and leaves the segment. */
  method EnrichNode(nodes: seq<Node>, segments: seq<string>, groups: map<string, seq<Node>>,
                    i: nat, links: seq<Link>, rng: Rng, t0: nat)
    returns (intra: seq<Link>, cross: seq<Link>, t: nat)
    requires UniqueIds(nodes) && i < |nodes| && GroupsOf(nodes, segments, groups)
    ensures |intra| <= ExtraConnections(i, rng(t0)) && |intra| < |OfSegment(nodes, nodes[i].segment)|
    ensures |cross| <= 1
    ensures AllNewFrom(links + intra + cross, |links|)
    ensures forall m :: m in intra ==>
              m.source == nodes[i].id && m.target in IdsOf(OfSegment(nodes, nodes[i].segment))
    ensures forall m :: m in cross ==>
              m.source == nodes[i].id && m.kind == Dashed &&
              m.target in IdsOf(nodes) && m.target !in IdsOf(OfSegment(nodes, nodes[i].segment))
    ensures t >= t0
  {
    var node := nodes[i];
    var budget := ExtraConnections(i, rng(t0));
    t := t0 + 1;
    OwnGroup(nodes, segments, groups, node);
    var group := groups[node.segment];
    var same := WithoutId(group, node.id);
    var existing;
    intra, existing, t := IntraLinks(node, budget, same, links, rng, t);
    forall m | m in intra
      ensures m.target in IdsOf(group)
    {
      IdsSubset(same, group, m.target);
    }
    cross, t := CrossLink(nodes, node, segments, groups, links + intra, existing, rng, t);
    CrossNew(links, intra, cross, node.id);
  }

  /** The cross-segment link, when there is one, is a new pair: it starts at
      v, ends elsewhere, and its target is neither a neighbour of v before
      nor one of the same-segment targets just added. */
  lemma CrossNew(links: seq<Link>, intra: seq<Link>, cross: seq<Link>, v: string)
    requires AllNewFrom(links + intra, |links|)
    requires forall m :: m in intra ==> m.source == v
    requires |cross| <= 1
    requires forall m :: m in cross ==>
               m.source == v && m.target != v && m.target !in Neighbours(links, v) + Targets(intra)
    ensures AllNewFrom(links + intra + cross, |links|)
  {
    if cross != [] {
      var l := cross[0];
      assert l in cross;
      FreshLink(links, intra, v, l.target);
      AppendNew(links + intra, |links|, l);
      assert cross == [l];
    } else {
      assert links + intra + cross == links + intra;
    }
  }

  /** The links one node adds, same-segment and cross-segment, join node
      ids. */
  lemma NodeLinksEndpoints(nodes: seq<Node>, i: nat, intra: seq<Link>, cross: seq<Link>)
    requires i < |nodes|
    requires forall m :: m in intra ==>
               m.source == nodes[i].id && m.target in IdsOf(OfSegment(nodes, nodes[i].segment))
    requires forall m :: m in cross ==> m.source == nodes[i].id && m.target in IdsOf(nodes)
    ensures forall m :: m in intra + cross ==> m.source in IdsOf(nodes) && m.target in IdsOf(nodes)
  {
    assert IdsOf(nodes)[i] == nodes[i].id;
    forall n | n in OfSegment(nodes, nodes[i].segment)
      ensures n in nodes
    {
      OfSegmentMembers(nodes, nodes[i].segment, n);
    }
    forall m | m in intra
      ensures m.target in IdsOf(nodes)
    {
      IdsSubset(OfSegment(nodes, nodes[i].segment), nodes, m.target);
    }
  }

  /** The state of step 5 after the nodes below i: the links before it
      untouched, at most seven added per node, each a new pair between node
      ids, attributed to its node by `from`. */
  ghost predicate EnrichedSoFar(nodes: seq<Node>, base: seq<Link>, i: nat, links: seq<Link>, from: seq<nat>) {
    |base| <= |links| <= |base| + 7 * i &&
    links[..|base|] == base &&
    PerNode(nodes, links[|base|..], from, i, 7) &&
    AllNewFrom(links, |base|) &&
    forall k :: |base| <= k < |links| ==>
      links[k].source in IdsOf(nodes) && links[k].target in IdsOf(nodes)
  }

  /** One round of step 5 keeps EnrichedSoFar, from node i to node i + 1. */
  lemma EnrichedStep(nodes: seq<Node>, base: seq<Link>, i: nat, links: seq<Link>, from: seq<nat>,
                     intra: seq<Link>, cross: seq<Link>)
    requires i < |nodes| && EnrichedSoFar(nodes, base, i, links, from)
    requires |intra| <= 6 && |cross| <= 1
    requires AllNewFrom(links + intra + cross, |links|)
    requires forall m :: m in intra ==> m.source == nodes[i].id
    requires forall m :: m in cross ==> m.source == nodes[i].id
    requires forall m :: m in intra + cross ==> m.source in IdsOf(nodes) && m.target in IdsOf(nodes)
    ensures EnrichedSoFar(nodes, base, i + 1, links + intra + cross, from + seq(|intra + cross|, _ => i))
  {
    var added := intra + cross;
    assert links + intra + cross == links + added;
    AllNewExtend(links, added, |base|);
    forall k | |links| <= k < |links + added|
      ensures (links + added)[k].source in IdsOf(nodes) && (links + added)[k].target in IdsOf(nodes)
    {
      assert (links + added)[k] == added[k - |links|];
    }
    assert (links + added)[..|base|] == links[..|base|];
    assert (links + added)[|base|..] == links[|base|..] + added;
    PerNodeAppend(nodes, links[|base|..], from, i, added, 7);
  }

  /** Step 5 (lines 98-176): enrich every node in node order. The links
      before it are untouched; every added link is a new pair between node
      ids; the added links come grouped by node in node order (`from` names
      each one's node), at most seven per node. */
  method Enrich(nodes: seq<Node>, segments: seq<string>, groups: map<string, seq<Node>>,
                base: seq<Link>, rng: Rng, t0: nat)
    returns (links: seq<Link>, t: nat, ghost from: seq<nat>)
    requires UniqueIds(nodes) && GroupsOf(nodes, segments, groups)
    ensures |base| <= |links| <= |base| + 7 * |nodes|
    ensures links[..|base|] == base
    ensures PerNode(nodes, links[|base|..], from, |nodes|, 7)
    ensures AllNewFrom(links, |base|)
    ensures forall k :: |base| <= k < |links| ==>
              links[k].source in IdsOf(nodes) && links[k].target in IdsOf(nodes)
    ensures t >= t0
  {
    links, t, from := base, t0, [];
    for i := 0 to |nodes|
      invariant EnrichedSoFar(nodes, base, i, links, from)
      invariant t >= t0
    {
      var intra, cross;
      intra, cross, t := EnrichNode(nodes, segments, groups, i, links, rng, t);
      NodeLinksEndpoints(nodes, i, intra, cross);
      EnrichedStep(nodes, base, i, links, from, intra, cross);
      links := links + intra + cross;
      from := from + seq(|intra + cross|, _ => i);
    }
  }
}
