/** The random source. Every Math.random() call of the builders becomes a
    draw from a caller-supplied stream: the t-th draw is rng(t), and a
    uniform pick among n things is rng(t) % n. Since rng is an arbitrary
    function, every sequence of picks is possible, and a property proved for
    all rng holds for every outcome of the random choices. */
module Draws {

  type Rng = nat -> nat

  /** Math.floor(Math.random() * n): an index into a pool of n > 0 items. */
  function Below(rng: Rng, t: nat, n: nat): (r: nat)
    requires n > 0
    ensures r < n
  {
    rng(t) % n
  }

  /** Every index of the pool is a possible pick. */
  lemma BelowAttainable(t: nat, n: nat, k: nat)
    requires k < n
    ensures exists rng: Rng :: Below(rng, t, n) == k
  {
    var rng: Rng := _ => k;
    assert rng(t) == k;
    assert k % n == k;
    assert Below(rng, t, n) == k;
  }

  /** Math.random() < tenths / 10: the draw's last decimal digit decides. */
  function Chance(rng: Rng, t: nat, tenths: nat): (b: bool)
    ensures tenths == 0 ==> !b
    ensures tenths >= 10 ==> b
  {
    rng(t) % 10 < tenths
  }

  /** With 0 < tenths < 10 both outcomes are possible. */
  lemma ChanceEitherWay(t: nat, tenths: nat)
    requires 0 < tenths < 10
    ensures exists rng: Rng :: Chance(rng, t, tenths)
    ensures exists rng: Rng :: !Chance(rng, t, tenths)
  {
    var yes: Rng := _ => 0;
    var no: Rng := _ => 9;
    assert Chance(yes, t, tenths);
    assert !Chance(no, t, tenths);
  }
}
