/** Step 1 of generateEnhancedGraph: keep the personas whose segment is
    selected and project each into a node. The legacy generateGraph of the
    view selects with the same rule. */
module NodeSelection {
  import opened Text
  import opened Graph

  /** The sentinel entry of the active-segment list that selects everything. */
  const AllSegments: string := "all"

  /** The colour a node gets when its segment has no (or an empty) colour. */
  const FallbackColor: string := "#999999"

  /** The id of a segment as the filter buttons use it: lower-cased, with the
      first space replaced by a hyphen ("North India" becomes "north-india"). */
  function SegmentId(segment: string): (id: string)
    ensures |id| == |segment|
    ensures ' ' !in segment ==> id == ToLower(segment)
  {
    LowerKeepsNoSpace(segment);
    ReplaceFirst(ToLower(segment), ' ', '-')
  }

  /** The segment id of a two-word name: both words lower-cased, joined by
      '-' in place of the first space. */
  lemma SegmentIdOf(name: string, first: string, rest: string, id: string)
    requires name == first + " " + rest && ' ' !in first
    requires id == ToLower(first) + "-" + ToLower(rest)
    ensures SegmentId(name) == id
  {
    ToLowerAppend(first + " ", rest);
    ToLowerAppend(first, " ");
    var lower := ToLower(name);
    assert ToLower(" ") == " ";
    assert lower == ToLower(first) + " " + ToLower(rest);
    assert lower[..|first|] == ToLower(first);
    assert ' ' !in ToLower(first) by {
      forall k | 0 <= k < |first|
        ensures ToLower(first)[k] != ' '
      {
        assert first[k] != ' ';
      }
    }
    ReplaceFirstAt(lower, ' ', '-', |first|);
    assert lower[|first| + 1..] == ToLower(rest);
  }

  predicate Selected(p: Persona, active: seq<string>) {
    AllSegments in active || SegmentId(p.segment) in active
  }

  /** SEGMENT_COLORS[segment] || "#999999": a missing key and an empty colour
      (both falsy in JavaScript) fall back to grey. */
  function ColorOf(colors: map<string, string>, segment: string): (c: string)
    ensures c != []
    ensures segment in colors && colors[segment] != [] ==> c == colors[segment]
    ensures !(segment in colors && colors[segment] != []) ==> c == FallbackColor
  {
    if segment in colors && colors[segment] != [] then colors[segment] else FallbackColor
  }

  function NodeOf(p: Persona, colors: map<string, string>): Node {
    Node(p.id, p.segment, ColorOf(colors, p.segment), ColorOf(colors, p.segment))
  }

  /** The selected personas, in persona order. */
  function Kept(ps: seq<Persona>, active: seq<string>): (r: seq<Persona>)
    ensures |r| <= |ps|
    ensures forall k :: 0 <= k < |r| ==> Selected(r[k], active)
  {
    if ps == [] then []
    else
      var init := Kept(ps[..|ps| - 1], active);
      if Selected(ps[|ps| - 1], active) then init + [ps[|ps| - 1]] else init
  }

  /** The node list step 1 builds. */
  function Selection(ps: seq<Persona>, active: seq<string>, colors: map<string, string>): (nodes: seq<Node>)
    ensures |nodes| <= |ps|
  {
    var kept := Kept(ps, active);
    seq(|kept|, i requires 0 <= i < |kept| => NodeOf(kept[i], colors))
  }

  predicate UniquePersonaIds(ps: seq<Persona>) {
    forall i, j :: 0 <= i < j < |ps| ==> ps[i].id != ps[j].id
  }

  /** A persona is kept exactly when it is one of the personas and its
      segment is selected. */
  lemma {:induction false} KeptMembers(ps: seq<Persona>, active: seq<string>, p: Persona)
    ensures p in Kept(ps, active) <==> p in ps && Selected(p, active)
  {
    if ps != [] {
      var init := ps[..|ps| - 1];
      KeptMembers(init, active, p);
      assert ps == init + [ps[|ps| - 1]];
    }
  }

  /** With "all" selected every persona is kept, in order. */
  lemma {:induction false} KeptAll(ps: seq<Persona>, active: seq<string>)
    requires AllSegments in active
    ensures Kept(ps, active) == ps
  {
    if ps != [] {
      KeptAll(ps[..|ps| - 1], active);
      assert ps == ps[..|ps| - 1] + [ps[|ps| - 1]];
    }
  }

  /** Keeping a subsequence of personas with unique ids keeps the ids unique. */
  lemma {:induction false} KeptUnique(ps: seq<Persona>, active: seq<string>)
    requires UniquePersonaIds(ps)
    ensures UniquePersonaIds(Kept(ps, active))
  {
    if ps != [] {
      var init := ps[..|ps| - 1];
      var last := ps[|ps| - 1];
      KeptUnique(init, active);
      var k := Kept(init, active);
      if Selected(last, active) {
        forall i | 0 <= i < |k|
          ensures k[i].id != last.id
        {
          KeptMembers(init, active, k[i]);
          var j :| 0 <= j < |init| && init[j] == k[i];
          assert ps[j] == init[j];
        }
      }
    }
  }

  /** What step 1 yields: node i is the projection of the i-th selected
      persona, carrying its id and segment, with color and originalColor both
      the segment's colour (grey when it has none); node ids stay unique. */
  lemma SelectionNodes(ps: seq<Persona>, active: seq<string>, colors: map<string, string>)
    ensures var nodes := Selection(ps, active, colors);
            var kept := Kept(ps, active);
            |nodes| == |kept| &&
            (UniquePersonaIds(ps) ==> UniqueIds(nodes)) &&
            (forall i :: 0 <= i < |nodes| ==>
               nodes[i].id == kept[i].id && nodes[i].segment == kept[i].segment &&
               nodes[i].color == nodes[i].originalColor == ColorOf(colors, kept[i].segment))
  {
    if UniquePersonaIds(ps) {
      KeptUnique(ps, active);
    }
  }

  /** A node is in the selection exactly when it is the projection of a
      selected persona. */
  lemma SelectionMembers(ps: seq<Persona>, active: seq<string>, colors: map<string, string>, p: Persona)
    ensures NodeOf(p, colors) in Selection(ps, active, colors) <==> p in ps && Selected(p, active)
  {
    var kept := Kept(ps, active);
    var nodes := Selection(ps, active, colors);
    KeptMembers(ps, active, p);
    if NodeOf(p, colors) in nodes {
      var i :| 0 <= i < |nodes| && nodes[i] == NodeOf(p, colors);
      assert kept[i] == p;
    }
    if p in kept {
      var i :| 0 <= i < |kept| && kept[i] == p;
      assert nodes[i] == NodeOf(p, colors);
    }
  }

  /** Step 1 (lines 10-28): one pass over the personas, pushing the node of
      each selected one. */
  method SelectNodes(personas: seq<Persona>, active: seq<string>, colors: map<string, string>)
    returns (nodes: seq<Node>)
    ensures nodes == Selection(personas, active, colors)
  {
    nodes := [];
    for i := 0 to |personas|
      invariant nodes == Selection(personas[..i], active, colors)
    {
      assert personas[..i + 1][..i] == personas[..i];
      if Selected(personas[i], active) {
        nodes := nodes + [NodeOf(personas[i], colors)];
      }
    }
    assert personas[..|personas|] == personas;
  }
}

/** Step 2 of generateEnhancedGraph: the segmentGroups dictionary, its keys
    in insertion order (the order Object.keys and Object.values report). */
module SegmentGroups {
  import opened Graph

  predicate Distinct(s: seq<string>) {
    forall i, j :: 0 <= i < j < |s| ==> s[i] != s[j]
  }

  /** The nodes of one segment, in node order. */
  function OfSegment(nodes: seq<Node>, segment: string): (r: seq<Node>)
    ensures |r| <= |nodes|
  {
    if nodes == [] then []
    else
      var init := OfSegment(nodes[..|nodes| - 1], segment);
      if nodes[|nodes| - 1].segment == segment then init + [nodes[|nodes| - 1]] else init
  }

  /** The segments that occur among the nodes, in order of first occurrence. */
  function SegmentsOf(nodes: seq<Node>): (r: seq<string>)
    ensures |r| <= |nodes|
  {
    if nodes == [] then []
    else
      var init := SegmentsOf(nodes[..|nodes| - 1]);
      if nodes[|nodes| - 1].segment in init then init else init + [nodes[|nodes| - 1].segment]
  }

  /** The total size of the groups of the given segments. */
  function SumSizes(nodes: seq<Node>, segments: seq<string>): nat {
    if segments == [] then 0
    else SumSizes(nodes, segments[..|segments| - 1]) + |OfSegment(nodes, segments[|segments| - 1])|
  }

  /** The dictionary built by step 2 maps exactly the segment list to the
      node groups of those segments. */
  ghost predicate GroupsOf(nodes: seq<Node>, segments: seq<string>, groups: map<string, seq<Node>>) {
    segments == SegmentsOf(nodes) &&
    (forall s :: s in groups <==> s in segments) &&
    (forall s :: s in groups ==> groups[s] == OfSegment(nodes, s))
  }

  /** A node is in the group of a segment exactly when it is one of the
      nodes and has that segment: so each node is in its own segment's group
      and in no other. */
  lemma {:induction false} OfSegmentMembers(nodes: seq<Node>, segment: string, n: Node)
    ensures n in OfSegment(nodes, segment) <==> n in nodes && n.segment == segment
  {
    if nodes != [] {
      OfSegmentMembers(nodes[..|nodes| - 1], segment, n);
      assert nodes == nodes[..|nodes| - 1] + [nodes[|nodes| - 1]];
    }
  }

  /** A segment gets a group exactly when some node has it, so no created
      group is empty. */
  lemma {:induction false} SegmentsOfMembers(nodes: seq<Node>, segment: string)
    ensures segment in SegmentsOf(nodes) <==> OfSegment(nodes, segment) != []
  {
    if nodes != [] {
      SegmentsOfMembers(nodes[..|nodes| - 1], segment);
    }
  }

  /** Every segment is listed once. */
  lemma {:induction false} SegmentsDistinct(nodes: seq<Node>)
    ensures Distinct(SegmentsOf(nodes))
  {
    if nodes != [] {
      SegmentsDistinct(nodes[..|nodes| - 1]);
    }
  }

  lemma {:induction false} SumSizesAppendNode(nodes: seq<Node>, n: Node, segments: seq<string>)
    requires Distinct(segments)
    ensures SumSizes(nodes + [n], segments) ==
            SumSizes(nodes, segments) + (if n.segment in segments then 1 else 0)
  {
    if segments != [] {
      var init := segments[..|segments| - 1];
      var last := segments[|segments| - 1];
      SumSizesAppendNode(nodes, n, init);
      assert (nodes + [n])[..|nodes|] == nodes;
      assert segments == init + [last];
    }
  }

  /** The groups partition the nodes: their sizes add up to the node count. */
  lemma {:induction false} GroupsPartition(nodes: seq<Node>)
    ensures SumSizes(nodes, SegmentsOf(nodes)) == |nodes|
  {
    if nodes != [] {
      var init := nodes[..|nodes| - 1];
      var n := nodes[|nodes| - 1];
      assert nodes == init + [n];
      GroupsPartition(init);
      var segs := SegmentsOf(init);
      SegmentsDistinct(init);
      SumSizesAppendNode(init, n, segs);
      if n.segment !in segs {
        SegmentsOfMembers(init, n.segment);
        assert SegmentsOf(nodes) == segs + [n.segment];
        assert (segs + [n.segment])[..|segs|] == segs;
      }
    }
  }

  /** Groups of different segments share no node id when node ids are unique. */
  lemma GroupIdsDisjoint(nodes: seq<Node>, s1: string, s2: string, x: string)
    requires UniqueIds(nodes) && s1 != s2
    requires x in IdsOf(OfSegment(nodes, s1))
    ensures x !in IdsOf(OfSegment(nodes, s2))
  {
    var g1 := OfSegment(nodes, s1);
    var g2 := OfSegment(nodes, s2);
    var i :| 0 <= i < |g1| && IdsOf(g1)[i] == x;
    OfSegmentMembers(nodes, s1, g1[i]);
    if x in IdsOf(g2) {
      var j :| 0 <= j < |g2| && IdsOf(g2)[j] == x;
      OfSegmentMembers(nodes, s2, g2[j]);
      SameIdSameNode(nodes, g1[i], g2[j]);
    }
  }

  /** Step 2 (lines 31-38): one pass over the nodes, creating a group at a
      segment's first node and pushing every node into its segment's group. */
  method GroupBySegment(nodes: seq<Node>) returns (segments: seq<string>, groups: map<string, seq<Node>>)
    ensures GroupsOf(nodes, segments, groups)
  {
    segments := [];
    groups := map[];
    for i := 0 to |nodes|
      invariant GroupsOf(nodes[..i], segments, groups)
    {
      var prefix := nodes[..i + 1];
      assert prefix[..i] == nodes[..i];
      var segment := nodes[i].segment;
      if segment !in groups {
        groups := groups[segment := []];
        segments := segments + [segment];
        SegmentsOfMembers(nodes[..i], segment);
      }
      groups := groups[segment := groups[segment] + [nodes[i]]];
    }
    assert nodes[..|nodes|] == nodes;
  }
}
