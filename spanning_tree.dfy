/** Step 3 of generateEnhancedGraph: a randomized spanning tree inside one
    segment group. The `connected` and `unconnected` Sets are kept as
    sequences in insertion order, the order Array.from reports them in. */
module SpanningTrees {
  import opened Draws
  import opened Graph

  /** The ids connected after the links so far: the root and every target. */
  function Reached(root: string, links: seq<Link>): (r: set<string>)
    ensures root in r
  {
    if links == [] then {root}
    else Reached(root, links[..|links| - 1]) + {links[|links| - 1].target}
  }

  /** Every link goes from an already connected id to a not yet connected one. */
  predicate TreeOrder(root: string, links: seq<Link>) {
    links == [] ||
    (var init := links[..|links| - 1];
     var l := links[|links| - 1];
     TreeOrder(root, init) && l.source in Reached(root, init) && l.target !in Reached(root, init))
  }

  /** Both ends of every tree link are connected ids. */
  lemma {:induction false} TreeEndpoints(root: string, tree: seq<Link>, k: nat)
    requires TreeOrder(root, tree) && k < |tree|
    ensures tree[k].source in Reached(root, tree) && tree[k].target in Reached(root, tree)
  {
    var init := tree[..|tree| - 1];
    if k < |init| {
      assert tree[k] == init[k];
      TreeEndpoints(root, init, k);
    }
  }

  /** A link in tree order is never a self-loop nor a repeat of an earlier
      pair: its target was not yet connected, while both ends of every
      earlier link were. */
  lemma {:induction false} TreeLinksNew(root: string, tree: seq<Link>)
    requires TreeOrder(root, tree)
    ensures AllNewFrom(tree, 0)
  {
    if tree != [] {
      var init := tree[..|tree| - 1];
      var l := tree[|tree| - 1];
      TreeLinksNew(root, init);
      forall k | 0 <= k < |tree|
        ensures NewPair(tree[..k], tree[k])
      {
        if k < |init| {
          assert tree[..k] == init[..k];
          assert tree[k] == init[k];
        } else {
          assert tree[..k] == init;
          forall m | m in init
            ensures !Joins(m, l.source, l.target)
          {
            var j :| 0 <= j < |init| && init[j] == m;
            TreeEndpoints(root, init, j);
          }
        }
      }
    }
  }

  /** Every connected id can be reached from the root along tree links. */
  lemma {:induction false} TreeReaches(root: string, tree: seq<Link>, x: string)
    requires TreeOrder(root, tree) && x in Reached(root, tree)
    ensures Linked(tree, root, x)
  {
    if tree == [] {
      LinkedSelf(tree, root);
    } else {
      var init := tree[..|tree| - 1];
      var l := tree[|tree| - 1];
      assert tree == init + [l];
      if x in Reached(root, init) {
        TreeReaches(root, init, x);
        LinkedGrow(init, [l], root, x);
      } else {
        TreeReaches(root, init, l.source);
        LinkedGrow(init, [l], root, l.source);
        LinkedByLink(tree, |init|);
        LinkedTrans(tree, root, l.source, x);
      }
    }
  }

  /** The state of the loop of lines 48-70: the tree so far is in tree
      order, `connected` lists exactly its reached ids, and `connected` and
      `unconnected` split the group's ids without overlap or repetition. */
  ghost predicate Growing(ids: seq<string>, root: string, tree: seq<Link>,
                          connected: seq<string>, unconnected: seq<string>)
  {
    TreeOrder(root, tree) &&
    (forall x :: x in connected <==> x in Reached(root, tree)) &&
    (forall x :: x in ids <==> x in connected || x in unconnected) &&
    (forall x :: x in connected ==> x !in unconnected) &&
    (forall i, j :: 0 <= i < j < |unconnected| ==> unconnected[i] != unconnected[j]) &&
    |connected| == |tree| + 1 &&
    |connected| + |unconnected| == |ids|
  }

  lemma GrowingStart(group: seq<Node>)
    requires UniqueIds(group) && group != []
    ensures var ids := IdsOf(group); Growing(ids, ids[0], [], [ids[0]], ids[1..])
  {
    var ids := IdsOf(group);
    forall x | x in ids
      ensures x in [ids[0]] || x in ids[1..]
    {
      var i :| 0 <= i < |ids| && ids[i] == x;
      if i > 0 { assert ids[1..][i - 1] == x; }
    }
  }

  /** One iteration keeps the loop state: the link goes from a connected id
      to an unconnected one, which then moves across. */
  lemma GrowingStep(ids: seq<string>, root: string, tree: seq<Link>,
                    connected: seq<string>, unconnected: seq<string>, s: nat, i: nat)
    requires Growing(ids, root, tree, connected, unconnected)
    requires s < |connected| && i < |unconnected|
    ensures Growing(ids, root, tree + [Link(connected[s], unconnected[i], Solid)],
                    connected + [unconnected[i]], unconnected[..i] + unconnected[i + 1..])
  {
    var l := Link(connected[s], unconnected[i], Solid);
    var tree' := tree + [l];
    var rest := unconnected[..i] + unconnected[i + 1..];
    assert tree'[..|tree|] == tree;
    assert Reached(root, tree') == Reached(root, tree) + {l.target};
    assert TreeOrder(root, tree');
    forall x | x in unconnected && x != unconnected[i]
      ensures x in rest
    {
      var j :| 0 <= j < |unconnected| && unconnected[j] == x;
      if j < i { assert rest[j] == x; } else { assert rest[j - 1] == x; }
    }
    forall x | x in rest
      ensures x in unconnected && x != unconnected[i]
    {
      var j :| 0 <= j < |rest| && rest[j] == x;
      if j < i { assert unconnected[j] == x; } else { assert unconnected[j + 1] == x; }
    }
    forall a, b | 0 <= a < b < |rest|
      ensures rest[a] != rest[b]
    {
      var a' := if a < i then a else a + 1;
      var b' := if b < i then b else b + 1;
      assert rest[a] == unconnected[a'] && rest[b] == unconnected[b'];
    }
  }

  /** Step 3 for one group (lines 42-71): start with the group's first node
      connected; while some node is unconnected, link a random connected
      node to a random unconnected one and move the latter across. */
  method SpanningTree(group: seq<Node>, rng: Rng, t0: nat) returns (tree: seq<Link>, t: nat)
    requires UniqueIds(group)
    ensures group == [] ==> tree == []
    ensures group != [] ==> |tree| == |group| - 1 && TreeOrder(group[0].id, tree) &&
                            forall x :: x in Reached(group[0].id, tree) <==> x in IdsOf(group)
    ensures forall k :: 0 <= k < |tree| ==> tree[k].kind == Solid
    ensures t >= t0
  {
    tree, t := [], t0;
    if |group| > 0 {
      var ids := IdsOf(group);
      var root := ids[0];
      var connected := [root];
      var unconnected := ids[1..];
      GrowingStart(group);
      while |unconnected| > 0
        invariant Growing(ids, root, tree, connected, unconnected)
        invariant forall k :: 0 <= k < |tree| ==> tree[k].kind == Solid
        invariant t >= t0
        decreases |unconnected|
      {
        var s := Below(rng, t, |connected|);
        var i := Below(rng, t + 1, |unconnected|);
        t := t + 2;
        GrowingStep(ids, root, tree, connected, unconnected, s, i);
        tree := tree + [Link(connected[s], unconnected[i], Solid)];
        connected := connected + [unconnected[i]];
        unconnected := unconnected[..i] + unconnected[i + 1..];
      }
    }
  }
}
