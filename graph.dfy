/** The graph data of the network view: personas, the nodes projected from
    them, links between node ids, and reachability along links. Links are
    undirected for reachability and for duplicate detection. */
module Graph {

  /** A persona as the builders read it: its id and its segment name.
      Cosmetic attributes (size, shape, pattern, pulse rate, the mock
      attribute template) are not modelled. */
  datatype Persona = Persona(id: string, segment: string)

  /** A node of the enhanced graph: the persona's id and segment and the
      colour it is drawn with; originalColor remembers that colour. */
  datatype Node = Node(id: string, segment: string, color: string, originalColor: string)

  /** "solid" and "dashed" are the two link types the builder assigns. */
  datatype LinkKind = Solid | Dashed

  datatype Link = Link(source: string, target: string, kind: LinkKind)

  datatype GraphData = GraphData(nodes: seq<Node>, links: seq<Link>)

  function IdsOf(nodes: seq<Node>): (ids: seq<string>)
    ensures |ids| == |nodes|
    ensures forall i :: 0 <= i < |nodes| ==> ids[i] == nodes[i].id
  {
    seq(|nodes|, i requires 0 <= i < |nodes| => nodes[i].id)
  }

  predicate UniqueIds(nodes: seq<Node>) {
    forall i, j :: 0 <= i < j < |nodes| ==> nodes[i].id != nodes[j].id
  }

  /** Two nodes of a list with unique ids that share an id are the same node. */
  lemma SameIdSameNode(nodes: seq<Node>, a: Node, b: Node)
    requires UniqueIds(nodes) && a in nodes && b in nodes && a.id == b.id
    ensures a == b
  {
    var i :| 0 <= i < |nodes| && nodes[i] == a;
    var j :| 0 <= j < |nodes| && nodes[j] == b;
  }

  // ------------------------------------------------------------ reachability

  /** Link l joins a and b, in either orientation. */
  predicate Joins(l: Link, a: string, b: string) {
    (l.source == a && l.target == b) || (l.source == b && l.target == a)
  }

  predicate Adjacent(links: seq<Link>, a: string, b: string) {
    exists k :: 0 <= k < |links| && Joins(links[k], a, b)
  }

  /** p is a walk along links: consecutive ids are joined by a link. */
  ghost predicate IsPath(links: seq<Link>, p: seq<string>) {
    |p| >= 1 && forall i :: 0 <= i < |p| - 1 ==> Adjacent(links, p[i], p[i + 1])
  }

  /** b can be reached from a by following links. */
  ghost predicate Linked(links: seq<Link>, a: string, b: string) {
    exists p :: IsPath(links, p) && p[0] == a && p[|p| - 1] == b
  }

  lemma LinkedSelf(links: seq<Link>, a: string)
    ensures Linked(links, a, a)
  {
    assert IsPath(links, [a]);
  }

  lemma LinkedByLink(links: seq<Link>, k: nat)
    requires k < |links|
    ensures Linked(links, links[k].source, links[k].target)
  {
    var p := [links[k].source, links[k].target];
    assert Joins(links[k], p[0], p[1]);
    assert IsPath(links, p);
  }

  /** Reachability is symmetric: a walk can be followed backwards. */
  lemma LinkedSym(links: seq<Link>, a: string, b: string)
    requires Linked(links, a, b)
    ensures Linked(links, b, a)
  {
    var p :| IsPath(links, p) && p[0] == a && p[|p| - 1] == b;
    var q := seq(|p|, i requires 0 <= i < |p| => p[|p| - 1 - i]);
    forall i | 0 <= i < |q| - 1
      ensures Adjacent(links, q[i], q[i + 1])
    {
      var j := |p| - 2 - i;
      assert Adjacent(links, p[j], p[j + 1]);
      var k :| 0 <= k < |links| && Joins(links[k], p[j], p[j + 1]);
      assert Joins(links[k], q[i], q[i + 1]);
    }
    assert IsPath(links, q);
  }

  /** Reachability is transitive: two walks that meet can be chained. */
  lemma LinkedTrans(links: seq<Link>, a: string, b: string, c: string)
    requires Linked(links, a, b) && Linked(links, b, c)
    ensures Linked(links, a, c)
  {
    var p :| IsPath(links, p) && p[0] == a && p[|p| - 1] == b;
    var q :| IsPath(links, q) && q[0] == b && q[|q| - 1] == c;
    var r := p + q[1..];
    forall i | 0 <= i < |r| - 1
      ensures Adjacent(links, r[i], r[i + 1])
    {
      if i < |p| - 1 {
        assert r[i] == p[i] && r[i + 1] == p[i + 1];
      } else {
        var j := i - |p| + 1;
        assert r[i] == q[j] && r[i + 1] == q[j + 1];
        assert Adjacent(links, q[j], q[j + 1]);
      }
    }
    assert IsPath(links, r);
  }

  /** Appending links never breaks reachability. */
  lemma LinkedGrow(links: seq<Link>, more: seq<Link>, a: string, b: string)
    requires Linked(links, a, b)
    ensures Linked(links + more, a, b)
  {
    var p :| IsPath(links, p) && p[0] == a && p[|p| - 1] == b;
    forall i | 0 <= i < |p| - 1
      ensures Adjacent(links + more, p[i], p[i + 1])
    {
      assert Adjacent(links, p[i], p[i + 1]);
      var k :| 0 <= k < |links| && Joins(links[k], p[i], p[i + 1]);
      assert (links + more)[k] == links[k];
    }
    assert IsPath(links + more, p);
  }

  /** Appending links in front never breaks reachability either. */
  lemma LinkedGrowFront(more: seq<Link>, links: seq<Link>, a: string, b: string)
    requires Linked(links, a, b)
    ensures Linked(more + links, a, b)
  {
    var p :| IsPath(links, p) && p[0] == a && p[|p| - 1] == b;
    forall i | 0 <= i < |p| - 1
      ensures Adjacent(more + links, p[i], p[i + 1])
    {
      assert Adjacent(links, p[i], p[i + 1]);
      var k :| 0 <= k < |links| && Joins(links[k], p[i], p[i + 1]);
      assert (more + links)[|more| + k] == links[k];
    }
    assert IsPath(more + links, p);
  }

  // -------------------------------------------------------- duplicate pairs

  /** l is neither a self-loop nor a second link for a pair that some link of
      prior already joins (in either orientation). */
  predicate NewPair(prior: seq<Link>, l: Link) {
    l.source != l.target && forall m :: m in prior ==> !Joins(m, l.source, l.target)
  }

  /** Every link of links[from..] was a new pair when it was appended. */
  predicate AllNewFrom(links: seq<Link>, from: nat) {
    forall k :: from <= k < |links| ==> NewPair(links[..k], links[k])
  }

  /** Appending a link that is a new pair keeps every appended link new. */
  lemma AppendNew(links: seq<Link>, from: nat, l: Link)
    requires AllNewFrom(links, from) && NewPair(links, l)
    ensures AllNewFrom(links + [l], from)
  {
    forall k | from <= k < |links + [l]|
      ensures NewPair((links + [l])[..k], (links + [l])[k])
    {
      if k < |links| {
        assert (links + [l])[..k] == links[..k];
      } else {
        assert (links + [l])[..k] == links;
      }
    }
  }

  /** If every link was new when appended, no unordered pair occurs twice and
      there is no self-loop. */
  lemma AllNewNoDuplicates(links: seq<Link>, i: nat, j: nat)
    requires AllNewFrom(links, 0)
    requires i < j < |links|
    ensures !Joins(links[i], links[j].source, links[j].target)
    ensures links[i].source != links[i].target
  {
    assert NewPair(links[..j], links[j]);
    assert links[i] == links[..j][i];
    assert NewPair(links[..i], links[i]);
  }

  // ------------------------------------------------------- links per node

  /** from[k] is the index of the node that link k starts from: links come
      grouped by node in node order, all from nodes below `upto`, and no
      node has more than `most` of them. */
  ghost predicate PerNode(nodes: seq<Node>, links: seq<Link>, from: seq<nat>, upto: nat, most: nat) {
    |from| == |links| &&
    (forall k :: 0 <= k < |from| ==>
       from[k] < upto && from[k] < |nodes| && links[k].source == nodes[from[k]].id) &&
    (forall k, m :: 0 <= k < m < |from| ==> from[k] <= from[m]) &&
    forall x :: multiset(from)[x] <= most
  }

  /** n copies of x hold x n times and nothing else. */
  lemma {:induction false} RunCount(x: nat, n: nat, y: nat)
    ensures multiset(seq(n, _ => x))[y] == if y == x then n else 0
  {
    if n > 0 {
      RunCount(x, n - 1, y);
      assert seq(n, _ => x) == seq(n - 1, _ => x) + [x];
    }
  }

  /** Appending node i's links, at most `most` of them, all starting at
      node i, extends the attribution to the nodes below i + 1. */
  lemma PerNodeAppend(nodes: seq<Node>, links: seq<Link>, from: seq<nat>, i: nat, added: seq<Link>, most: nat)
    requires PerNode(nodes, links, from, i, most) && i < |nodes|
    requires |added| <= most && forall m :: m in added ==> m.source == nodes[i].id
    ensures PerNode(nodes, links + added, from + seq(|added|, _ => i), i + 1, most)
  {
    var run := seq(|added|, _ => i);
    var f := from + run;
    forall k | 0 <= k < |f|
      ensures f[k] < i + 1 && f[k] < |nodes| && (links + added)[k].source == nodes[f[k]].id
    {
      if k >= |from| {
        assert (links + added)[k] == added[k - |from|] && added[k - |from|] in added;
      }
    }
    assert multiset(f) == multiset(from) + multiset(run);
    forall x
      ensures multiset(f)[x] <= most
    {
      RunCount(i, |added|, x);
      if x == i {
        assert x !in from;
      }
    }
  }
}
