/** Finite relations stored as adjacency lists, and reachability along them. */
module Relation {

  /** `R[i]` lists the successors of node `i`; nodes are the indices of `R`. */
  type Rel = seq<seq<nat>>

  ghost predicate ValidRel(R: Rel) {
    forall i, k :: 0 <= i < |R| && 0 <= k < |R[i]| ==> R[i][k] < |R|
  }

  predicate Edge(R: Rel, x: nat, y: nat) {
    x < |R| && y in R[x]
  }

  /** Every node of `p` is followed in `p` by one of its successors. */
  ghost predicate Path(R: Rel, p: seq<nat>) {
    |p| > 0 && forall k :: 0 <= k < |p| - 1 ==> Edge(R, p[k], p[k + 1])
  }

  /** `y` can be reached from `x` in zero or more steps. */
  ghost predicate Reach(R: Rel, x: nat, y: nat) {
    exists p :: Path(R, p) && p[0] == x && p[|p| - 1] == y
  }

  lemma ReachRefl(R: Rel, x: nat)
    ensures Reach(R, x, x)
  {
    assert Path(R, [x]);
  }

  lemma ReachStep(R: Rel, x: nat, y: nat, z: nat)
    requires Edge(R, x, y) && Reach(R, y, z)
    ensures Reach(R, x, z)
  {
    var p :| Path(R, p) && p[0] == y && p[|p| - 1] == z;
    var q := [x] + p;
    forall k | 0 <= k < |q| - 1 ensures Edge(R, q[k], q[k + 1]) {
      if k > 0 { assert Edge(R, p[k - 1], p[k]); }
    }
    assert Path(R, q) && q[0] == x && q[|q| - 1] == z;
  }

  /** A set that contains `x` and is closed under successors contains all that `x` reaches. */
  lemma ReachStaysIn(R: Rel, S: iset<nat>, x: nat, y: nat)
    requires x in S && Reach(R, x, y)
    requires forall a, b :: a in S && Edge(R, a, b) ==> b in S
    ensures y in S
  {
    var p :| Path(R, p) && p[0] == x && p[|p| - 1] == y;
    var k := 0;
    while k < |p| - 1
      invariant 0 <= k < |p| && p[k] in S
    {
      assert Edge(R, p[k], p[k + 1]);
      k := k + 1;
    }
  }

  lemma ReachTrans(R: Rel, x: nat, y: nat, z: nat)
    requires Reach(R, x, y) && Reach(R, y, z)
    ensures Reach(R, x, z)
  {
    var p :| Path(R, p) && p[0] == x && p[|p| - 1] == y;
    var k := |p| - 1;
    while k > 0
      invariant 0 <= k < |p| && Reach(R, p[k], z)
    {
      assert Edge(R, p[k - 1], p[k]);
      ReachStep(R, p[k - 1], p[k], z);
      k := k - 1;
    }
  }
}
