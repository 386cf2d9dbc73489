/** Step 4 of generateEnhancedGraph: one dashed link from each segment to
    the next one, the last segment wrapping round to the first. The step does
    no duplicate check: with one segment the link stays inside it (and may be
    a self-loop), and with two segments both links join the same two groups. */
module SegmentRing {
  import opened Draws
  import opened Graph

  /** l is a cross-segment link from group `from` to group `to`. */
  predicate RingLink(l: Link, from: seq<Node>, to: seq<Node>) {
    l.source in IdsOf(from) && l.target in IdsOf(to) && l.kind == Dashed
  }

  /** Step 4 (lines 75-95): for each segment i, when both it and segment
      (i + 1) mod k have nodes, link a random node of the one to a random
      node of the other. */
  method AddRing(segments: seq<string>, groups: map<string, seq<Node>>, rng: Rng, t0: nat)
    returns (ring: seq<Link>, t: nat)
    requires forall s :: s in segments ==> s in groups
    ensures |ring| <= |segments|
    ensures forall k :: 0 <= k < |ring| ==> ring[k].kind == Dashed
    ensures (forall s :: s in segments ==> groups[s] != []) ==>
              |ring| == |segments| &&
              forall i :: 0 <= i < |segments| ==>
                RingLink(ring[i], groups[segments[i]], groups[segments[(i + 1) % |segments|]])
    ensures t >= t0
  {
    ring, t := [], t0;
    ghost var full := forall s :: s in segments ==> groups[s] != [];
    for i := 0 to |segments|
      invariant |ring| <= i
      invariant forall k :: 0 <= k < |ring| ==> ring[k].kind == Dashed
      invariant full ==> |ring| == i
      invariant full ==> forall j :: 0 <= j < i ==>
                  RingLink(ring[j], groups[segments[j]], groups[segments[(j + 1) % |segments|]])
      invariant t >= t0
    {
      var sourceGroup := groups[segments[i]];
      var targetGroup := groups[segments[(i + 1) % |segments|]];
      if |sourceGroup| > 0 && |targetGroup| > 0 {
        var sourceNode := sourceGroup[Below(rng, t, |sourceGroup|)];
        var targetNode := targetGroup[Below(rng, t + 1, |targetGroup|)];
        t := t + 2;
        ring := ring + [Link(sourceNode.id, targetNode.id, Dashed)];
      }
    }
  }
}
