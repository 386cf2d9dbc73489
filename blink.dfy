/** One tick of the blink animation shown while a simulation is in progress:
    up to twenty random draws of a node index, collecting the drawn nodes'
    ids in a set. */
module Blink {
  import opened Draws
  import opened Graph

  /** The most draws one tick makes. */
  const MaxBlink: nat := 20

  /** Math.min(nodeCount, 20). */
  function BlinkCount(nodeCount: nat): (n: nat)
    ensures n <= nodeCount && n <= MaxBlink
    ensures n == nodeCount || n == MaxBlink
  {
    if nodeCount < MaxBlink then nodeCount else MaxBlink
  }

  /** The id of the node the k-th draw from t0 picks. */
  function Drawn(nodes: seq<Node>, rng: Rng, t0: nat, k: nat): string
    requires nodes != []
  {
    nodes[Below(rng, t0 + k, |nodes|)].id
  }

  /** The ids the first `count` draws from t0 on pick. */
  function Blinked(nodes: seq<Node>, rng: Rng, t0: nat, count: nat): (ids: set<string>)
    requires nodes != []
    ensures |ids| <= count
  {
    if count == 0 then {}
    else Blinked(nodes, rng, t0, count - 1) + {Drawn(nodes, rng, t0, count - 1)}
  }

  /** `count` draws pick at most `count` ids, each a node's id, and at least
      one when there is a draw. */
  lemma {:induction false} BlinkedBounds(nodes: seq<Node>, rng: Rng, t0: nat, count: nat)
    requires nodes != []
    ensures |Blinked(nodes, rng, t0, count)| <= count
    ensures forall id :: id in Blinked(nodes, rng, t0, count) ==> id in IdsOf(nodes)
    ensures count > 0 ==> Blinked(nodes, rng, t0, count) != {}
  {
    if count > 0 {
      BlinkedBounds(nodes, rng, t0, count - 1);
      var i := Below(rng, t0 + count - 1, |nodes|);
      assert IdsOf(nodes)[i] == nodes[i].id;
    }
  }

  /** The set holds exactly the ids of the drawn nodes. */
  lemma {:induction false} BlinkedDrawn(nodes: seq<Node>, rng: Rng, t0: nat, count: nat, id: string)
    requires nodes != []
    ensures id in Blinked(nodes, rng, t0, count) <==>
            exists k :: 0 <= k < count && Drawn(nodes, rng, t0, k) == id
  {
    if count > 0 {
      BlinkedDrawn(nodes, rng, t0, count - 1, id);
      if id in Blinked(nodes, rng, t0, count - 1) {
        var k :| 0 <= k < count - 1 && Drawn(nodes, rng, t0, k) == id;
        assert 0 <= k < count;
      }
      if exists k :: 0 <= k < count && Drawn(nodes, rng, t0, k) == id {
        var k :| 0 <= k < count && Drawn(nodes, rng, t0, k) == id;
        if k < count - 1 {
          assert id in Blinked(nodes, rng, t0, count - 1);
        }
      }
    }
  }

  /** The body of the interval callback (lines 83-93): blinkCount draws of
      an index, each adding the drawn node's id. The guard of line 89 always
      holds, as a drawn index is below the node count. */
  method BlinkTick(nodes: seq<Node>, rng: Rng, t0: nat) returns (blink: set<string>, t: nat)
    ensures nodes == [] ==> blink == {}
    ensures nodes != [] ==> blink == Blinked(nodes, rng, t0, BlinkCount(|nodes|))
    ensures t == t0 + BlinkCount(|nodes|)
  {
    var blinkCount := BlinkCount(|nodes|);
    blink := {};
    t := t0;
    for i := 0 to blinkCount
      invariant t == t0 + i
      invariant nodes == [] ==> blink == {}
      invariant nodes != [] ==> blink == Blinked(nodes, rng, t0, i)
    {
      var index := Below(rng, t, |nodes|);
      blink := blink + {nodes[index].id};
      t := t + 1;
    }
  }

  /** What one tick shows: at most min(nodeCount, 20) blinking nodes, all of
      them nodes of the graph, and some whenever the graph has a node. */
  lemma BlinkTickBounds(nodes: seq<Node>, rng: Rng, t0: nat)
    requires nodes != []
    ensures var blink := Blinked(nodes, rng, t0, BlinkCount(|nodes|));
            |blink| <= BlinkCount(|nodes|) && blink != {} &&
            forall id :: id in blink ==> id in IdsOf(nodes)
  {
    BlinkedBounds(nodes, rng, t0, BlinkCount(|nodes|));
  }
}
