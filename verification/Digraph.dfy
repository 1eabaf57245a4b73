/** The one-pass fixpoint of `digraph` and `traverse` (lalr.c): a depth-first
    search that merges the sets of each strongly connected component when the
    component's root is left. */
module Digraphs {
  import opened Relation
  import opened Pigeonhole

  type Sets = seq<set<int>>

  /** `t` is in the original set of some node reachable from `x`. */
  ghost predicate Collects(R: Rel, f0: Sets, x: nat, t: int) {
    exists y: nat :: Reach(R, x, y) && y < |f0| && t in f0[y]
  }

  /** The result `digraph` is for: every set has become the union of the
      original sets over all reachable nodes. */
  ghost predicate Closed(R: Rel, f0: Sets, f: Sets) {
    |f| == |f0| && forall x, t :: 0 <= x < |f| ==> (t in f[x] <==> Collects(R, f0, x, t))
  }

  /** A family of sets that contains the original ones and flows along the relation. */
  ghost predicate PreSolution(R: Rel, f0: Sets, g: Sets) {
    && |g| == |f0| == |R|
    && (forall x :: 0 <= x < |g| ==> f0[x] <= g[x])
    && (forall x: nat, y: nat :: Edge(R, x, y) && y < |g| ==> g[y] <= g[x])
  }

  /** The closed family solves F'(i) = F(i) + union of F'(j) over successors j, and is the least solution. */
  lemma ClosedIsLeastSolution(R: Rel, f0: Sets, f: Sets)
    requires ValidRel(R) && |f0| == |R| && Closed(R, f0, f)
    ensures PreSolution(R, f0, f)
    ensures forall x, t :: 0 <= x < |f| && t in f[x] ==> t in f0[x] || exists y: nat :: Edge(R, x, y) && y < |f| && t in f[y]
    ensures forall g, x :: PreSolution(R, f0, g) && 0 <= x < |f| ==> f[x] <= g[x]
  {
    forall x, t | 0 <= x < |f0| && t in f0[x] ensures t in f[x] { CollectsOwn(R, f0, x, t); }
    forall x: nat, y: nat, t | Edge(R, x, y) && y < |f| && t in f[y] ensures t in f[x] {
      ReachRefl(R, y);
      ReachStep(R, x, y, y);
      CollectsVia(R, f0, x, y, t);
    }
    forall x, t | 0 <= x < |f| && t in f[x]
      ensures t in f0[x] || exists y: nat :: Edge(R, x, y) && y < |f| && t in f[y]
    {
      var y := CollectsUnfold(R, f0, x, t);
    }
    forall g, x, t | PreSolution(R, f0, g) && 0 <= x < |f| && t in f[x] ensures t in g[x] {
      CollectsBelow(R, f0, g, x, t);
    }
  }

  lemma CollectsUnfold(R: Rel, f0: Sets, x: nat, t: int) returns (y: nat)
    requires ValidRel(R) && x < |f0| == |R| && Collects(R, f0, x, t)
    ensures t in f0[x] || (Edge(R, x, y) && y < |R| && Collects(R, f0, y, t))
  {
    var z: nat :| Reach(R, x, z) && z < |f0| && t in f0[z];
    var p :| Path(R, p) && p[0] == x && p[|p| - 1] == z;
    y := x;
    if |p| > 1 {
      y := p[1];
      assert Edge(R, p[0], p[1]);
      var q := p[1..];
      forall k | 0 <= k < |q| - 1 ensures Edge(R, q[k], q[k + 1]) {
        assert Edge(R, p[k + 1], p[k + 1 + 1]);
      }
      assert Path(R, q) && q[0] == y && q[|q| - 1] == z;
    }
  }

  lemma CollectsBelow(R: Rel, f0: Sets, g: Sets, x: nat, t: int)
    requires ValidRel(R) && PreSolution(R, f0, g) && x < |R| && Collects(R, f0, x, t)
    ensures t in g[x]
  {
    var z: nat :| Reach(R, x, z) && z < |f0| && t in f0[z];
    var p :| Path(R, p) && p[0] == x && p[|p| - 1] == z;
    var k := |p| - 1;
    while k > 0
      invariant 0 <= k < |p| && p[k] < |g| && t in g[p[k]]
    {
      assert Edge(R, p[k - 1], p[k]);
      k := k - 1;
    }
  }

  // ----- The state of the search, as a value -----

  /** Row sets, INDEX, and the live part VERTICES[1..top] of the stack. */
  datatype Snap = Snap(f: Sets, ix: seq<int>, stk: seq<int>)

  function Infinity(R: Rel): nat { |R| + 2 }

  ghost predicate Shape(R: Rel, f0: Sets, s: Snap) {
    && |s.f| == |s.ix| == |R| == |f0|
    && ValidRel(R)
    && Distinct(s.stk)
    && (forall p :: 0 <= p < |s.stk| ==> 0 <= s.stk[p] < |R|)
    && (forall p :: 0 <= p < |s.stk| ==> 1 <= s.ix[s.stk[p]] <= p + 1)
    && (forall x :: 0 <= x < |R| && x !in s.stk ==> s.ix[x] == 0 || s.ix[x] == Infinity(R))
  }

  ghost predicate Done(R: Rel, s: Snap, x: nat) {
    x < |s.ix| && s.ix[x] == Infinity(R)
  }

  /** Sets only grow, and only by what is reachable. */
  ghost predicate Sound(R: Rel, f0: Sets, s: Snap)
    requires Shape(R, f0, s)
  {
    && (forall x :: 0 <= x < |R| ==> f0[x] <= s.f[x])
    && (forall x, t :: 0 <= x < |R| && t in s.f[x] ==> Collects(R, f0, x, t))
  }

  /** Nodes already left have their final set, and lead only to such nodes. */
  ghost predicate Finished(R: Rel, f0: Sets, s: Snap)
    requires Shape(R, f0, s)
  {
    && (forall x, t :: 0 <= x < |R| && Done(R, s, x) && Collects(R, f0, x, t) ==> t in s.f[x])
    && (forall x, y :: Done(R, s, x) && Edge(R, x, y) ==> Done(R, s, y))
  }

  /** INDEX of a node on the stack names a stack position it can reach. */
  ghost predicate LowLinks(R: Rel, f0: Sets, s: Snap)
    requires Shape(R, f0, s)
  {
    forall p :: 0 <= p < |s.stk| ==> Reach(R, s.stk[p], s.stk[s.ix[s.stk[p]] - 1])
  }

  ghost predicate Inv(R: Rel, f0: Sets, s: Snap) {
    Shape(R, f0, s) && Sound(R, f0, s) && Finished(R, f0, s) && LowLinks(R, f0, s)
  }

  ghost predicate Visited(s: Snap, x: nat) {
    x < |s.ix| && s.ix[x] != 0
  }

  /** Successor `y` of a stacked node has been seen from the block rooted at stack position `h`. */
  ghost predicate Seen(R: Rel, s: Snap, h: nat, y: nat) {
    && h < |s.stk| && |s.f| == |s.ix| && 0 <= s.stk[h] < |s.ix|
    && Visited(s, y)
    && (forall q :: 0 <= q < |s.stk| && s.stk[q] == y ==> q + 1 >= s.ix[s.stk[h]])
    && (Done(R, s, y) ==> s.f[y] <= s.f[s.stk[h]])
  }

  /** The part of the stack from position `h` on: its root has absorbed every
      member and the first `k` successors of the root itself. */
  ghost predicate Block(R: Rel, f0: Sets, s: Snap, h: nat, k: nat) {
    && Shape(R, f0, s) && h < |s.stk| && k <= |R[s.stk[h]]|
    && var i := s.stk[h];
    && (forall p :: h <= p < |s.stk| ==> s.ix[i] <= s.ix[s.stk[p]] && f0[s.stk[p]] <= s.f[i])
    && (forall p :: h < p < |s.stk| ==> s.ix[s.stk[p]] <= p)
    && (forall p, y :: h < p < |s.stk| && Edge(R, s.stk[p], y) ==> Seen(R, s, h, y))
    && (forall m :: 0 <= m < k ==> Seen(R, s, h, R[i][m]))
  }

  /** What happened to nodes between two states: those visited before are untouched. */
  ghost predicate Extends(s: Snap, s': Snap) {
    && |s.ix| == |s'.ix| == |s.f| == |s'.f|
    && |s.stk| <= |s'.stk| && s'.stk[..|s.stk|] == s.stk
    && (forall x :: 0 <= x < |s.ix| && s.ix[x] != 0 ==> s'.ix[x] == s.ix[x] && s'.f[x] == s.f[x])
  }

  /** The effect of `traverse(i)`. */
  ghost predicate Traversed(R: Rel, f0: Sets, s: Snap, s': Snap, i: nat) {
    && Shape(R, f0, s')
    && Extends(s, s')
    && Visited(s', i)
    && (|s'.stk| > |s.stk| ==>
          && s'.stk[|s.stk|] == i
          && s'.ix[i] <= |s.stk|
          && Block(R, f0, s', |s.stk|, |R[i]|))
  }

  // ----- Consequences of the state invariants -----

  lemma CollectsOwn(R: Rel, f0: Sets, x: nat, t: int)
    requires x < |f0| && t in f0[x]
    ensures Collects(R, f0, x, t)
  {
    ReachRefl(R, x);
  }

  lemma CollectsVia(R: Rel, f0: Sets, x: nat, y: nat, t: int)
    requires Reach(R, x, y) && Collects(R, f0, y, t)
    ensures Collects(R, f0, x, t)
  {
    var z: nat :| Reach(R, y, z) && z < |f0| && t in f0[z];
    ReachTrans(R, x, y, z);
  }

  /** A node on the stack has not been left. */
  lemma StackedNotDone(R: Rel, f0: Sets, s: Snap)
    requires Shape(R, f0, s)
    ensures |s.stk| <= |R|
    ensures forall x :: x in s.stk ==> 0 <= x < |R| && 1 <= s.ix[x] < Infinity(R)
  {
    DistinctBound(s.stk, |R|);
  }

  // ----- One step of the search -----

  /** Entering node `i`. */
  function Pushed(s: Snap, i: nat): Snap
    requires i < |s.ix|
  {
    s.(ix := s.ix[i := |s.stk| + 1], stk := s.stk + [i])
  }

  lemma PushShape(R: Rel, f0: Sets, s: Snap, i: nat)
    requires Shape(R, f0, s) && i < |R| && s.ix[i] == 0
    ensures Shape(R, f0, Pushed(s, i)) && Extends(s, Pushed(s, i)) && |s.stk| < |R|
  {
    var s' := Pushed(s, i);
    assert i !in s.stk;
    DistinctBound(s'.stk, |R|);
  }

  lemma PushKeeps(R: Rel, f0: Sets, s: Snap, i: nat)
    requires Inv(R, f0, s) && i < |R| && s.ix[i] == 0
    ensures |s.stk| < |R| && Inv(R, f0, Pushed(s, i)) && Extends(s, Pushed(s, i))
    ensures Block(R, f0, Pushed(s, i), |s.stk|, 0)
  {
    var s' := Pushed(s, i);
    PushShape(R, f0, s, i);
    forall x, t | 0 <= x < |R| && Done(R, s', x) && Collects(R, f0, x, t) ensures t in s'.f[x] {
      assert Done(R, s, x);
    }
    forall x, y | Done(R, s', x) && Edge(R, x, y) ensures Done(R, s', y) {
      assert Done(R, s, x);
    }
    forall p | 0 <= p < |s'.stk| ensures Reach(R, s'.stk[p], s'.stk[s'.ix[s'.stk[p]] - 1]) {
      if p == |s.stk| { ReachRefl(R, i); } else { assert s'.stk[p] == s.stk[p] != i; }
    }
  }

  /** After looking at successor `j` of the block root `i`. */
  function Absorbed(s: Snap, i: nat, j: nat): Snap
    requires i < |s.ix| && j < |s.ix| && |s.f| == |s.ix|
  {
    s.(ix := s.ix[i := if s.ix[i] > s.ix[j] then s.ix[j] else s.ix[i]], f := s.f[i := s.f[i] + s.f[j]])
  }

  lemma AbsorbShape(R: Rel, f0: Sets, s: Snap, h: nat, j: nat)
    requires Shape(R, f0, s) && h < |s.stk| && Visited(s, j)
    ensures Shape(R, f0, Absorbed(s, s.stk[h], j))
    ensures forall x :: Done(R, s, x) <==> Done(R, Absorbed(s, s.stk[h], j), x)
    ensures !Done(R, s, s.stk[h])
  {
    StackedNotDone(R, f0, s);
    var i := s.stk[h];
    var s' := Absorbed(s, i, j);
    if s.ix[i] > s.ix[j] { assert j in s.stk; }
    forall p | 0 <= p < |s'.stk| ensures 1 <= s'.ix[s'.stk[p]] <= p + 1 {
      if p != h { assert s.stk[p] != i; }
    }
  }

  lemma AbsorbInv(R: Rel, f0: Sets, s: Snap, h: nat, j: nat)
    requires Inv(R, f0, s) && h < |s.stk| && Edge(R, s.stk[h], j) && Visited(s, j)
    ensures Inv(R, f0, Absorbed(s, s.stk[h], j))
  {
    var i := s.stk[h];
    var s' := Absorbed(s, i, j);
    AbsorbShape(R, f0, s, h, j);
    AbsorbSound(R, f0, s, h, j);
    AbsorbLowLinks(R, f0, s, h, j);
    forall x, t | 0 <= x < |R| && Done(R, s', x) && Collects(R, f0, x, t) ensures t in s'.f[x] {
      assert Done(R, s, x);
    }
    forall x, y | Done(R, s', x) && Edge(R, x, y) ensures Done(R, s', y) {
      assert Done(R, s, x);
    }
  }

  lemma AbsorbSound(R: Rel, f0: Sets, s: Snap, h: nat, j: nat)
    requires Inv(R, f0, s) && h < |s.stk| && Edge(R, s.stk[h], j) && Visited(s, j)
    requires Shape(R, f0, Absorbed(s, s.stk[h], j))
    ensures Sound(R, f0, Absorbed(s, s.stk[h], j))
  {
    var i := s.stk[h];
    var s' := Absorbed(s, i, j);
    ReachRefl(R, j);
    ReachStep(R, i, j, j);
    forall x, t | 0 <= x < |R| && t in s'.f[x] ensures Collects(R, f0, x, t) {
      if x == i && t in s.f[j] { CollectsVia(R, f0, i, j, t); }
    }
  }

  lemma AbsorbLowLinks(R: Rel, f0: Sets, s: Snap, h: nat, j: nat)
    requires Inv(R, f0, s) && h < |s.stk| && Edge(R, s.stk[h], j) && Visited(s, j)
    requires Shape(R, f0, Absorbed(s, s.stk[h], j))
    ensures LowLinks(R, f0, Absorbed(s, s.stk[h], j))
  {
    hide Reach, Sound, Finished, Distinct, LowLinks;
    var s' := Absorbed(s, s.stk[h], j);
    assert |s.stk| == |s'.stk| && |s'.ix| == |R|;
    hide Inv;
    forall p | 0 <= p < |s'.stk| ensures Reach(R, s'.stk[p], s'.stk[s'.ix[s'.stk[p]] - 1]) {
      if p == h { AbsorbedLow(R, f0, s, h, j); } else { OtherLow(R, f0, s, h, p); }
    }
    LowLinksIntro(R, f0, s');
  }

  lemma LowLinksIntro(R: Rel, f0: Sets, s: Snap)
    requires Shape(R, f0, s) && forall p :: 0 <= p < |s.stk| ==> Reach(R, s.stk[p], s.stk[s.ix[s.stk[p]] - 1])
    ensures LowLinks(R, f0, s)
  {
    hide Reach, Distinct;
  }

  /** The low link of another stacked node is untouched. */
  lemma OtherLow(R: Rel, f0: Sets, s: Snap, h: nat, p: nat)
    requires Inv(R, f0, s) && h < |s.stk| && p < |s.stk| && p != h
    ensures s.stk[p] != s.stk[h] && s.ix[s.stk[p]] > 0 && Reach(R, s.stk[p], s.stk[s.ix[s.stk[p]] - 1])
  {
    hide Sound, Finished, Reach;
  }

  /** The low link of the absorbing node: its own, or the one of j. */
  lemma AbsorbedLow(R: Rel, f0: Sets, s: Snap, h: nat, j: nat)
    requires Inv(R, f0, s) && h < |s.stk| && Edge(R, s.stk[h], j) && Visited(s, j)
    ensures var low := if s.ix[s.stk[h]] > s.ix[j] then s.ix[j] else s.ix[s.stk[h]];
      0 < low <= |s.stk| && Reach(R, s.stk[h], s.stk[low - 1])
  {
    hide Sound, Finished, Reach;
    StackedNotDone(R, f0, s);
    if s.ix[s.stk[h]] > s.ix[j] {
      assert j in s.stk;
      var q :| 0 <= q < |s.stk| && s.stk[q] == j;
      ReachStep(R, s.stk[h], j, s.stk[s.ix[j] - 1]);
    }
  }

  /** What a block had seen stays seen while the search goes deeper and its root absorbs `j`. */
  lemma SeenKept(R: Rel, f0: Sets, s: Snap, s1: Snap, h: nat, j: nat, y: nat)
    requires Inv(R, f0, s) && Inv(R, f0, s1) && h < |s.stk| && Extends(s, s1)
    requires Visited(s1, j) && Seen(R, s, h, y)
    ensures Seen(R, Absorbed(s1, s.stk[h], j), h, y)
  {
    var i := s.stk[h];
    var s' := Absorbed(s1, i, j);
    StackedNotDone(R, f0, s);
    StackedNotDone(R, f0, s1);
    assert s1.stk[h] == s1.stk[..|s.stk|][h] == i;
    AbsorbShape(R, f0, s1, h, j);
    assert Done(R, s', y) <==> Done(R, s, y);
    forall q | 0 <= q < |s'.stk| && s'.stk[q] == y ensures q + 1 >= s'.ix[i] {
      assert s1.ix[y] == s.ix[y];
      assert y in s1.stk;
      assert y in s.stk;
      var q0 :| 0 <= q0 < |s.stk| && s.stk[q0] == y;
      assert s1.stk[q0] == s1.stk[..|s.stk|][q0] == y;
    }
  }

  /** Everything the finished block of a child has seen, its parent block sees after absorbing the child. */
  lemma SeenInherited(R: Rel, f0: Sets, s1: Snap, h: nat, h': nat, y: nat)
    requires Inv(R, f0, s1) && h < h' < |s1.stk|
    requires Seen(R, s1, h', y)
    ensures Seen(R, Absorbed(s1, s1.stk[h], s1.stk[h']), h, y)
  {
    StackedNotDone(R, f0, s1);
    AbsorbShape(R, f0, s1, h, s1.stk[h']);
  }

  lemma SeenAbsorbed(R: Rel, f0: Sets, s1: Snap, h: nat, j: nat)
    requires Inv(R, f0, s1) && h < |s1.stk| && Visited(s1, j)
    ensures Seen(R, Absorbed(s1, s1.stk[h], j), h, j)
  {
    StackedNotDone(R, f0, s1);
    AbsorbShape(R, f0, s1, h, j);
    var i := s1.stk[h];
    var s' := Absorbed(s1, i, j);
    assert s'.ix[i] <= s1.ix[j];
  }

  /** What a member of the block points to has been seen from the absorbing node. */
  lemma AbsorbedSeen(R: Rel, f0: Sets, s: Snap, s1: Snap, h: nat, k: nat, p: nat, y: nat)
    requires Inv(R, f0, s) && Inv(R, f0, s1) && h < |s.stk| && k < |R[s.stk[h]]|
    requires Block(R, f0, s, h, k)
    requires Traversed(R, f0, s, s1, R[s.stk[h]][k]) || (s1 == s && Visited(s, R[s.stk[h]][k]))
    requires Extends(s, s1) && h < p < |s1.stk| && Edge(R, s1.stk[p], y)
    ensures Seen(R, Absorbed(s1, s.stk[h], R[s.stk[h]][k]), h, y)
  {
    hide Inv, Seen, Done, Distinct;
    var j := R[s.stk[h]][k];
    var h' := |s.stk|;
    assert s1.stk[h] == s1.stk[..h'][h] == s.stk[h];
    if p < h' {
      assert s1.stk[p] == s1.stk[..h'][p] == s.stk[p];
      SeenKept(R, f0, s, s1, h, j, y);
    } else {
      if p == h' { var m :| 0 <= m < |R[j]| && R[j][m] == y; }
      SeenInherited(R, f0, s1, h, h', y);
    }
  }

  /** Where absorbing takes place: the lower part of the stack is as before. */
  lemma AbsorbSetting(R: Rel, f0: Sets, s: Snap, s1: Snap, h: nat, k: nat)
    requires Inv(R, f0, s) && Inv(R, f0, s1) && h < |s.stk| && k < |R[s.stk[h]]|
    requires Block(R, f0, s, h, k)
    requires Traversed(R, f0, s, s1, R[s.stk[h]][k]) || (s1 == s && Visited(s, R[s.stk[h]][k]))
    ensures Extends(s, s1) && h < |s1.stk| && s1.stk[h] == s.stk[h] < |s1.ix| == |s1.f| && ValidRel(R) && |R| == |s1.ix|
    ensures var j := R[s.stk[h]][k]; Visited(s1, j) && j < |s1.ix| && Shape(R, f0, Absorbed(s1, s.stk[h], j))
    ensures forall p :: 0 <= p < |s1.stk| ==> 0 <= s1.stk[p] < |R|
  {
    hide Seen, Done, Distinct, Sound, Finished, LowLinks, ValidRel;
    assert Extends(s, s1);
    assert s1.stk[h] == s1.stk[..|s.stk|][h] == s.stk[h];
    AbsorbShape(R, f0, s1, h, R[s.stk[h]][k]);
  }

  lemma BlockIntro(R: Rel, f0: Sets, s: Snap, h: nat, k: nat)
    requires Shape(R, f0, s) && h < |s.stk| && 0 <= s.stk[h] < |R| && k <= |R[s.stk[h]]|
    requires forall p :: h <= p < |s.stk| ==> s.ix[s.stk[h]] <= s.ix[s.stk[p]] && f0[s.stk[p]] <= s.f[s.stk[h]]
    requires forall p :: h < p < |s.stk| ==> s.ix[s.stk[p]] <= p
    requires forall p, y :: h < p < |s.stk| && Edge(R, s.stk[p], y) ==> Seen(R, s, h, y)
    requires forall m :: 0 <= m < k ==> Seen(R, s, h, R[s.stk[h]][m])
    ensures Block(R, f0, s, h, k)
  {
    hide Seen, Edge, Distinct, ValidRel;
  }

  /** The loop step of `traverse`: from `s`, successor `k` of the root was searched (`s1`) and absorbed. */
  lemma AbsorbBlock(R: Rel, f0: Sets, s: Snap, s1: Snap, h: nat, k: nat)
    requires Inv(R, f0, s) && Inv(R, f0, s1) && h < |s.stk| && k < |R[s.stk[h]]|
    requires Block(R, f0, s, h, k)
    requires Traversed(R, f0, s, s1, R[s.stk[h]][k]) || (s1 == s && Visited(s, R[s.stk[h]][k]))
    ensures s1.stk[h] == s.stk[h] && Shape(R, f0, Absorbed(s1, s.stk[h], R[s.stk[h]][k]))
    ensures Block(R, f0, Absorbed(s1, s.stk[h], R[s.stk[h]][k]), h, k + 1)
  {
    hide Sound, Finished, LowLinks, Seen, Traversed, Extends, Block, Edge, Done;
    var i := s.stk[h];
    var j := R[i][k];
    hide Inv, Shape;
    AbsorbSetting(R, f0, s, s1, h, k);
    AbsorbMembers(R, f0, s, s1, h, k);
    var s' := Absorbed(s1, i, j);
    forall p, y | h < p < |s'.stk| && Edge(R, s'.stk[p], y) ensures Seen(R, s', h, y) {
      AbsorbedSeen(R, f0, s, s1, h, k, p, y);
    }
    forall m | 0 <= m < k + 1 ensures Seen(R, s', h, R[i][m]) {
      SeenBefore(R, f0, s, s1, h, k, m);
    }
    BlockIntro(R, f0, s', h, k + 1);
  }

  lemma SeenBefore(R: Rel, f0: Sets, s: Snap, s1: Snap, h: nat, k: nat, m: nat)
    requires Inv(R, f0, s) && Inv(R, f0, s1) && h < |s.stk| && k < |R[s.stk[h]]|
    requires Block(R, f0, s, h, k)
    requires Traversed(R, f0, s, s1, R[s.stk[h]][k]) || (s1 == s && Visited(s, R[s.stk[h]][k]))
    requires s1.stk[h] == s.stk[h] && m <= k
    ensures Seen(R, Absorbed(s1, s.stk[h], R[s.stk[h]][k]), h, R[s.stk[h]][m])
  {
    hide Seen, Done, Sound, Finished, LowLinks, Extends, Distinct;
    var j := R[s.stk[h]][k];
    hide Inv, Shape, Traversed;
    AbsorbSetting(R, f0, s, s1, h, k);
    if m < k { SeenKept(R, f0, s, s1, h, j, R[s.stk[h]][m]); } else { SeenAbsorbed(R, f0, s1, h, j); }
  }

  /** A member of the block before the search of successor `k` remains one. */
  lemma MemberKept(R: Rel, f0: Sets, s: Snap, s1: Snap, h: nat, k: nat, p: nat)
    requires Shape(R, f0, s) && Shape(R, f0, s1) && h <= p < |s.stk| && k < |R[s.stk[h]]|
    requires Block(R, f0, s, h, k) && Extends(s, s1)
    ensures var s' := Absorbed(s1, s.stk[h], R[s.stk[h]][k]); var i := s.stk[h];
            && s'.ix[i] <= s'.ix[s'.stk[p]] && f0[s'.stk[p]] <= s'.f[i] && (p > h ==> s'.ix[s'.stk[p]] <= p)
  {
    assert s1.stk[h] == s1.stk[..|s.stk|][h] == s.stk[h];
    assert s1.stk[p] == s1.stk[..|s.stk|][p] == s.stk[p];
    assert p > h ==> s.stk[p] != s.stk[h];
    assert s1.ix[s.stk[p]] == s.ix[s.stk[p]] && s1.f[s.stk[p]] == s.f[s.stk[p]];
    assert s1.ix[s.stk[h]] == s.ix[s.stk[h]] && s1.f[s.stk[h]] == s.f[s.stk[h]];
  }

  /** A node left on the stack by the search of successor `k` joins the block. */
  lemma MemberNew(R: Rel, f0: Sets, s: Snap, s1: Snap, h: nat, k: nat, p: nat)
    requires Shape(R, f0, s) && Shape(R, f0, s1) && h < |s.stk| <= p < |s1.stk| && k < |R[s.stk[h]]|
    requires Traversed(R, f0, s, s1, R[s.stk[h]][k])
    ensures var s' := Absorbed(s1, s.stk[h], R[s.stk[h]][k]); var i := s.stk[h];
            && s'.ix[i] <= s'.ix[s'.stk[p]] && f0[s'.stk[p]] <= s'.f[i] && s'.ix[s'.stk[p]] <= p
  {
    var i := s.stk[h];
    var j := R[i][k];
    assert s1.stk[h] == s1.stk[..|s.stk|][h] == i;
    assert s1.stk[|s.stk|] == j;
    assert s1.stk[p] != i;
    assert s1.ix[j] <= s1.ix[s1.stk[p]] && f0[s1.stk[p]] <= s1.f[j];
  }

  lemma AbsorbMembers(R: Rel, f0: Sets, s: Snap, s1: Snap, h: nat, k: nat)
    requires Inv(R, f0, s) && Inv(R, f0, s1) && h < |s.stk| && k < |R[s.stk[h]]|
    requires Block(R, f0, s, h, k)
    requires Traversed(R, f0, s, s1, R[s.stk[h]][k]) || (s1 == s && Visited(s, R[s.stk[h]][k]))
    ensures var s' := Absorbed(s1, s.stk[h], R[s.stk[h]][k]); var i := s.stk[h];
            && (forall p :: h <= p < |s'.stk| ==> s'.ix[i] <= s'.ix[s'.stk[p]] && f0[s'.stk[p]] <= s'.f[i])
            && (forall p :: h < p < |s'.stk| ==> s'.ix[s'.stk[p]] <= p)
  {
    var i := s.stk[h];
    var j := R[i][k];
    var s' := Absorbed(s1, i, j);
    var h' := |s.stk|;
    assert Extends(s, s1);
    assert s1.stk[h] == s1.stk[..h'][h] == i;
    StackedNotDone(R, f0, s1);
    forall p | h <= p < |s'.stk|
      ensures s'.ix[i] <= s'.ix[s'.stk[p]] && f0[s'.stk[p]] <= s'.f[i] && (p > h ==> s'.ix[s'.stk[p]] <= p)
    {
      if p < h' {
        MemberKept(R, f0, s, s1, h, k, p);
      } else {
        MemberNew(R, f0, s, s1, h, k, p);
      }
    }
  }

  // ----- Leaving the root of a component -----

  ghost predicate InBlock(s: Snap, h: nat, x: nat) {
    exists p :: h <= p < |s.stk| && s.stk[p] == x
  }

  lemma BlockBelow(s: Snap, h: nat)
    requires h < |s.stk|
    ensures forall x :: InBlock(s, h, x) <==> InBlock(s, h + 1, x) || x == s.stk[h]
    ensures forall x :: !InBlock(s, |s.stk|, x)
  {
  }

  /** Every node from stack position `h` on gets the root's set and is left. */
  ghost function Popped(R: Rel, s: Snap, h: nat): Snap
    requires h < |s.stk| && |s.f| == |s.ix| && 0 <= s.stk[h] < |s.f|
  {
    Snap(seq(|s.f|, x requires 0 <= x < |s.f| => if InBlock(s, h, x) then s.f[s.stk[h]] else s.f[x]),
         seq(|s.ix|, x requires 0 <= x < |s.ix| => if InBlock(s, h, x) then Infinity(R) else s.ix[x]),
         s.stk[..h])
  }

  /** The block of a root that reached nothing below itself. */
  ghost predicate Component(R: Rel, f0: Sets, s: Snap, h: nat) {
    && Inv(R, f0, s) && h < |s.stk|
    && s.ix[s.stk[h]] == h + 1
    && Block(R, f0, s, h, |R[s.stk[h]]|)
  }

  lemma SuccessorSeen(R: Rel, f0: Sets, s: Snap, h: nat, x: nat, y: nat)
    requires Component(R, f0, s, h) && InBlock(s, h, x) && Edge(R, x, y)
    ensures Seen(R, s, h, y)
    ensures InBlock(s, h, y) || Done(R, s, y)
  {
    var p :| h <= p < |s.stk| && s.stk[p] == x;
    if p == h { var m :| 0 <= m < |R[x]| && R[x][m] == y; assert Seen(R, s, h, R[x][m]); }
    assert Seen(R, s, h, y);
    if y in s.stk {
      var q :| 0 <= q < |s.stk| && s.stk[q] == y;
      assert h <= q;
    }
  }

  lemma DoneShrinks(R: Rel, f0: Sets, s: Snap, a: nat, b: nat)
    requires Inv(R, f0, s) && Done(R, s, a) && Edge(R, a, b)
    ensures Done(R, s, b) && s.f[b] <= s.f[a]
  {
    forall t | t in s.f[b] ensures t in s.f[a] {
      ReachRefl(R, b);
      ReachStep(R, a, b, b);
      CollectsVia(R, f0, a, b, t);
    }
  }

  ghost predicate Absorbs(R: Rel, s: Snap, h: nat, x: nat)
    requires h < |s.stk| && |s.f| == |s.ix| && 0 <= s.stk[h] < |s.f|
  {
    InBlock(s, h, x) || (Done(R, s, x) && s.f[x] <= s.f[s.stk[h]])
  }

  lemma AbsorbsSuccessor(R: Rel, f0: Sets, s: Snap, h: nat, a: nat, b: nat)
    requires Component(R, f0, s, h) && Absorbs(R, s, h, a) && Edge(R, a, b)
    ensures Absorbs(R, s, h, b)
  {
    if InBlock(s, h, a) {
      SuccessorSeen(R, f0, s, h, a, b);
    } else {
      DoneShrinks(R, f0, s, a, b);
    }
  }

  /** Whatever a member of the component collects is already in the root's set. */
  lemma ComponentComplete(R: Rel, f0: Sets, s: Snap, h: nat, x: nat, t: int)
    requires Component(R, f0, s, h) && InBlock(s, h, x) && Collects(R, f0, x, t)
    ensures t in s.f[s.stk[h]]
  {
    var G := iset z: nat | Absorbs(R, s, h, z);
    forall a, b | a in G && Edge(R, a, b) ensures b in G {
      AbsorbsSuccessor(R, f0, s, h, a, b);
    }
    var y: nat :| Reach(R, x, y) && y < |f0| && t in f0[y];
    ReachStaysIn(R, G, x, y);
    assert Absorbs(R, s, h, y);
    if InBlock(s, h, y) {
      var q :| h <= q < |s.stk| && s.stk[q] == y;
      assert f0[s.stk[q]] <= s.f[s.stk[h]];
    }
  }

  /** Every member of the component reaches its root. */
  lemma MemberReachesRoot(R: Rel, f0: Sets, s: Snap, h: nat, p: nat)
    requires Component(R, f0, s, h) && h <= p < |s.stk|
    ensures Reach(R, s.stk[p], s.stk[h])
    decreases p
  {
    if p == h {
      ReachRefl(R, s.stk[h]);
    } else {
      var q := s.ix[s.stk[p]] - 1;
      MemberReachesRoot(R, f0, s, h, q);
      ReachTrans(R, s.stk[p], s.stk[q], s.stk[h]);
    }
  }

  lemma PopIndex(R: Rel, f0: Sets, s: Snap, h: nat)
    requires Shape(R, f0, s) && h < |s.stk|
    ensures forall p :: 0 <= p < h ==> !InBlock(s, h, s.stk[p])
    ensures forall x :: Done(R, Popped(R, s, h), x) <==> Done(R, s, x) || InBlock(s, h, x)
  {
    var s' := Popped(R, s, h);
    forall x | InBlock(s, h, x) ensures Done(R, s', x) {
      var p :| h <= p < |s.stk| && s.stk[p] == x;
    }
  }

  lemma PopShape(R: Rel, f0: Sets, s: Snap, h: nat)
    requires Shape(R, f0, s) && h < |s.stk|
    ensures Shape(R, f0, Popped(R, s, h))
  {
    PopIndex(R, f0, s, h);
    var s' := Popped(R, s, h);
    assert forall p :: 0 <= p < h ==> s.stk[p] == s'.stk[p];
    forall x | 0 <= x < |R| && x !in s'.stk ensures s'.ix[x] == 0 || s'.ix[x] == Infinity(R) {
      assert x in s.stk ==> InBlock(s, h, x);
    }
  }

  lemma PopSound(R: Rel, f0: Sets, s: Snap, h: nat)
    requires Component(R, f0, s, h) && Shape(R, f0, Popped(R, s, h))
    ensures Sound(R, f0, Popped(R, s, h))
  {
    var s' := Popped(R, s, h);
    forall x | 0 <= x < |R|
      ensures f0[x] <= s'.f[x] && forall t :: t in s'.f[x] ==> Collects(R, f0, x, t)
    {
      if InBlock(s, h, x) {
        var q :| h <= q < |s.stk| && s.stk[q] == x;
        MemberReachesRoot(R, f0, s, h, q);
        forall t | t in s'.f[x] ensures Collects(R, f0, x, t) {
          CollectsVia(R, f0, x, s.stk[h], t);
        }
      }
    }
  }

  lemma PopFinished(R: Rel, f0: Sets, s: Snap, h: nat)
    requires Component(R, f0, s, h) && Shape(R, f0, Popped(R, s, h))
    ensures Finished(R, f0, Popped(R, s, h))
  {
    var s' := Popped(R, s, h);
    PopIndex(R, f0, s, h);
    forall x, t | 0 <= x < |R| && Done(R, s', x) && Collects(R, f0, x, t) ensures t in s'.f[x] {
      if InBlock(s, h, x) {
        ComponentComplete(R, f0, s, h, x, t);
      }
    }
    forall x, y | Done(R, s', x) && Edge(R, x, y) ensures Done(R, s', y) {
      if InBlock(s, h, x) {
        SuccessorSeen(R, f0, s, h, x, y);
      }
    }
  }

  lemma PopKeeps(R: Rel, f0: Sets, s: Snap, h: nat)
    requires Component(R, f0, s, h)
    ensures Inv(R, f0, Popped(R, s, h))
  {
    var s' := Popped(R, s, h);
    PopIndex(R, f0, s, h);
    PopShape(R, f0, s, h);
    PopSound(R, f0, s, h);
    PopFinished(R, f0, s, h);
    forall p | 0 <= p < |s'.stk| ensures Reach(R, s'.stk[p], s'.stk[s'.ix[s'.stk[p]] - 1]) {
      assert s'.stk[p] == s.stk[p];
    }
  }

  /** Nodes visited before the stack was extended are not in the extension. */
  lemma BlockIsNew(R: Rel, f0: Sets, s0: Snap, s: Snap, p: nat)
    requires Shape(R, f0, s0) && Shape(R, f0, s) && Extends(s0, s) && |s0.stk| <= p < |s.stk|
    ensures s0.ix[s.stk[p]] == 0
  {
    StackedNotDone(R, f0, s);
    forall q | 0 <= q < |s0.stk| ensures s0.stk[q] != s.stk[p] {
      assert s.stk[q] == s.stk[..|s0.stk|][q];
    }
  }

  /** Popping touches only nodes that were entered after the stack had height `h`. */
  lemma PopExtends(R: Rel, f0: Sets, s0: Snap, s: Snap, h: nat)
    requires Component(R, f0, s, h) && Shape(R, f0, s0) && |s0.stk| == h && Extends(s0, s)
    ensures Traversed(R, f0, s0, Popped(R, s, h), s.stk[h])
  {
    PopShape(R, f0, s, h);
    forall p | h <= p < |s.stk| ensures s0.ix[s.stk[p]] == 0 {
      BlockIsNew(R, f0, s0, s, p);
    }
    assert InBlock(s, h, s.stk[h]);
  }

  /** The state of `traverse(i)`, entered in state `s0` with the stack at height `h`, after `k` successors. */
  ghost predicate InLoop(R: Rel, f0: Sets, s0: Snap, s: Snap, i: nat, h: nat, k: nat) {
    && ValidRel(R) && i < |R|
    && Shape(R, f0, s0) && h == |s0.stk| && s0.ix[i] == 0
    && Inv(R, f0, s) && Extends(s0, s) && h < |s.stk| && s.stk[h] == i
    && Block(R, f0, s, h, k)
  }

  lemma EnterLoop(R: Rel, f0: Sets, s0: Snap, i: nat)
    requires Inv(R, f0, s0) && i < |R| && s0.ix[i] == 0
    ensures |s0.stk| < |R| && InLoop(R, f0, s0, Pushed(s0, i), i, |s0.stk|, 0)
  {
    PushKeeps(R, f0, s0, i);
  }

  lemma LoopFacts(R: Rel, f0: Sets, s0: Snap, s: Snap, i: nat, h: nat, k: nat)
    requires InLoop(R, f0, s0, s, i, h, k)
    ensures Inv(R, f0, s) && Shape(R, f0, s)
    ensures h < |s.stk| && s.stk[h] == i && k <= |R[i]|
    ensures Unvisited(R, s) < Unvisited(R, s0)
  {
    assert i in Unvisited(R, s0) && i !in Unvisited(R, s);
  }

  /** One round of the loop: successor `k` was searched unless visited already, then absorbed. */
  lemma LoopStep(R: Rel, f0: Sets, s0: Snap, s: Snap, s1: Snap, i: nat, h: nat, k: nat, j: nat)
    requires InLoop(R, f0, s0, s, i, h, k) && Inv(R, f0, s1) && k < |R[i]| && j == R[i][k] < |R| && |s.ix| == |R|
    requires Traversed(R, f0, s, s1, j) || (s1 == s && s.ix[j] != 0)
    ensures |s1.ix| == |s1.f| == |R| && InLoop(R, f0, s0, Absorbed(s1, i, j), i, h, k + 1)
  {
    assert Visited(s1, R[i][k]) && Extends(s, s1) && |s.ix| == |R| && |s1.stk| >= |s.stk|;
    hide Inv, Block, Traversed, Shape;
    AbsorbBlock(R, f0, s, s1, h, k);
    AbsorbInv(R, f0, s1, h, R[i][k]);
    ExtendsAbsorbed(s0, s, s1, i, R[i][k]);
  }

  lemma ExtendsAbsorbed(s0: Snap, s: Snap, s1: Snap, i: nat, j: nat)
    requires Extends(s0, s) && Extends(s, s1) && i < |s.ix| && j < |s.ix| && s0.ix[i] == 0
    ensures Extends(s0, Absorbed(s1, i, j))
  {
    assert s1.stk[..|s0.stk|] == s1.stk[..|s.stk|][..|s0.stk|];
  }

  /** A node that reached below itself stays on the stack. */
  lemma StayOnStack(R: Rel, f0: Sets, s0: Snap, s: Snap, i: nat, h: nat)
    requires i < |R| && InLoop(R, f0, s0, s, i, h, |R[i]|) && |s.ix| == |R| && s.ix[i] != h + 1
    ensures Traversed(R, f0, s0, s, i)
  {
  }

  /** The root of a component leaves with its whole block. */
  lemma LeaveRoot(R: Rel, f0: Sets, s0: Snap, s: Snap, i: nat, h: nat)
    requires i < |R| && InLoop(R, f0, s0, s, i, h, |R[i]|) && |s.ix| == |s.f| == |R| && s.ix[i] == h + 1
    ensures h < |s.stk| && 0 <= s.stk[h] < |R|
    ensures Inv(R, f0, Popped(R, s, h)) && Traversed(R, f0, s0, Popped(R, s, h), i)
    ensures Distinct(s.stk) && forall p :: 0 <= p < |s.stk| ==> 0 <= s.stk[p] < |R|
  {
    PopExtends(R, f0, s0, s, h);
    PopKeeps(R, f0, s, h);
  }

  ghost function Unvisited(R: Rel, s: Snap): (r: set<int>)
    requires |s.ix| == |R|
    ensures forall x :: x in r <==> 0 <= x < |R| && s.ix[x] == 0
  {
    set x | x in Below(|R|) && s.ix[x] == 0
  }

  lemma InitialInv(R: Rel, s: Snap)
    requires ValidRel(R) && |s.f| == |s.ix| == |R| && s.stk == []
    requires forall x :: 0 <= x < |R| ==> s.ix[x] == 0
    ensures Inv(R, s.f, s)
  {
    forall x, t | 0 <= x < |R| && t in s.f[x] ensures Collects(R, s.f, x, t) {
      CollectsOwn(R, s.f, x, t);
    }
  }

  /** With nothing below it on the stack, the first node entered is always a root. */
  lemma ReturnsAtBottom(R: Rel, f0: Sets, s: Snap, s': Snap, i: nat)
    requires Inv(R, f0, s') && s.stk == [] && Traversed(R, f0, s, s', i)
    ensures s'.stk == []
  {
  }

  lemma AllClosed(R: Rel, f0: Sets, s: Snap)
    requires Inv(R, f0, s) && s.stk == []
    requires forall x :: 0 <= x < |R| ==> Visited(s, x) || R[x] == []
    ensures Closed(R, f0, s.f)
  {
    forall x, t | 0 <= x < |R| && Collects(R, f0, x, t) ensures t in s.f[x] {
      if !Visited(s, x) {
        LeafCollects(R, f0, x, t);
      }
    }
  }

  /** A node without successors collects only its own set. */
  lemma LeafCollects(R: Rel, f0: Sets, x: nat, t: int)
    requires x < |R| && R[x] == [] && x < |f0| && Collects(R, f0, x, t)
    ensures t in f0[x]
  {
    var y: nat :| Reach(R, x, y) && y < |f0| && t in f0[y];
    ReachStaysIn(R, iset{x}, x, y);
  }

  // ----- The program -----

  class Digraph {
    const R: Rel
    const F: array<set<int>>
    const INDEX: array<int>
    const VERTICES: array<int>
    var top: nat
    /** The state of the search as a value: what the arrays hold. */
    ghost var S: Snap

    constructor (R: Rel, F: array<set<int>>)
      requires ValidRel(R) && F.Length == |R|
      ensures this.R == R && this.F == F && top == 0
      ensures fresh(INDEX) && fresh(VERTICES) && INDEX != VERTICES
      ensures INDEX.Length == |R| + 1 && VERTICES.Length == |R| + 1
    {
      this.R := R;
      this.F := F;
      INDEX := new int[|R| + 1];
      VERTICES := new int[|R| + 1];
      top := 0;
    }

    ghost predicate Ready()
      reads this
    {
      && F.Length == |R| && INDEX.Length == |R| + 1 && VERTICES.Length == |R| + 1
      && INDEX != VERTICES && top <= |R|
    }

    ghost predicate Valid()
      reads this, F, INDEX, VERTICES
    {
      && Ready()
      && |S.f| == |S.ix| == |R| && |S.stk| == top
      && (forall x :: 0 <= x < |R| ==> F[x] == S.f[x])
      && (forall x :: 0 <= x < |R| ==> INDEX[x] == S.ix[x])
      && (forall p :: 0 <= p < top ==> VERTICES[p + 1] == S.stk[p])
    }

    /** Computes the sets of everything reachable, in place. */
    method Run()
      requires Ready() && top == 0 && ValidRel(R)
      modifies this, F, INDEX, VERTICES
      ensures Closed(R, old(F[..]), F[..])
    {
      ghost var f0 := F[..];
      for i := 0 to |R|
        invariant Ready() && top == 0 && F[..] == f0 && forall x :: 0 <= x < i ==> INDEX[x] == 0
      {
        INDEX[i] := 0;
      }
      S := Snap(f0, INDEX[..|R|], []);
      InitialInv(R, S);
      for i := 0 to |R|
        invariant Valid() && S.stk == [] && Inv(R, f0, S)
        invariant forall x :: 0 <= x < i ==> Visited(S, x) || R[x] == []
      {
        if INDEX[i] == 0 && R[i] != [] {
          ghost var s := S;
          Traverse(i, f0, Unvisited(R, s));
          ReturnsAtBottom(R, f0, s, S, i);
        }
      }
      AllClosed(R, f0, S);
      assert F[..] == S.f;
    }

    /** The entry of `traverse`: push the node and number it. */
    method Enter(i: nat)
      requires Valid() && top < |R| && i < |R|
      modifies `top, `S, INDEX, VERTICES
      ensures Valid() && top == old(top) + 1 && S == Pushed(old(S), i)
    {
      top := top + 1;
      VERTICES[top] := i;
      INDEX[i] := top;
      S := Pushed(S, i);
    }

    /** The loop body of `traverse` after the search of successor `j`. */
    method Absorb(i: nat, j: nat)
      requires Valid() && i < |R| && j < |R|
      modifies `S, F, INDEX
      ensures Valid() && S == Absorbed(old(S), i, j)
    {
      S := Absorbed(S, i, j);
      if INDEX[i] > INDEX[j] {
        INDEX[i] := INDEX[j];
      }
      F[i] := F[i] + F[j];
    }

    /** The final loop of `traverse`: pop the component of `i` and give it the set of `i`. */
    method Unwind(i: nat, ghost h: nat)
      requires Valid() && i < |R| && h < top && S.stk[h] == i
      requires Distinct(S.stk) && forall p :: 0 <= p < top ==> 0 <= S.stk[p] < |R|
      modifies `top, `S, F, INDEX
      ensures Valid() && S == Popped(R, old(S), h)
    {
      ghost var s := S;
      hide InBlock;
      BlockBelow(s, h);
      assert forall x: nat :: !InBlock(s, top, x);
      while true
        invariant Ready() && h < top <= |s.stk|
        invariant forall x :: 0 <= x < |R| ==> INDEX[x] == if InBlock(s, top, x) then Infinity(R) else s.ix[x]
        invariant forall x :: 0 <= x < |R| ==> F[x] == if InBlock(s, top, x) then s.f[i] else s.f[x]
        decreases top
      {
        var j := VERTICES[top];
        BlockBelow(s, top - 1);
        assert j == s.stk[top - 1];
        top := top - 1;
        INDEX[j] := |R| + 2;
        if i == j {
          break;
        }
        F[j] := F[i];
      }
      S := Popped(R, s, h);
      assert top == h;
      assert forall x :: 0 <= x < |R| ==> INDEX[x] == if InBlock(s, h, x) then Infinity(R) else s.ix[x];
      assert forall x :: 0 <= x < |R| ==> F[x] == if InBlock(s, h, x) then s.f[i] else s.f[x];
    }

    /** The end of `traverse`: the root of a component takes its block off the stack. */
    method Leave(i: nat, height: nat, ghost f0: Sets, ghost s0: Snap, ghost k: nat)
      requires Valid() && i < |R| && height > 0 && k == |R[i]|
      requires InLoop(R, f0, s0, S, i, height - 1, k)
      modifies `top, `S, F, INDEX
      ensures Valid() && Inv(R, f0, S) && Traversed(R, f0, s0, S, i)
    {
      if INDEX[i] == height {
        LeaveRoot(R, f0, s0, S, i, height - 1);
        Unwind(i, height - 1);
      } else {
        StayOnStack(R, f0, s0, S, i, height - 1);
      }
    }

    method Traverse(i: nat, ghost f0: Sets, ghost unvisited: set<int>)
      requires Valid() && ValidRel(R) && Inv(R, f0, S)
      requires i < |R| && INDEX[i] == 0
      requires unvisited == Unvisited(R, S)
      modifies `top, `S, F, INDEX, VERTICES
      ensures Valid() && Inv(R, f0, S)
      ensures Traversed(R, f0, old(S), S, i)
      decreases unvisited
    {
      ghost var s0 := S;
      EnterLoop(R, f0, s0, i);
      hide InLoop, Inv, Traversed, Absorbed, Pushed, Unvisited, Shape;
      Enter(i);
      var height := top;
      var k := 0;
      while k < |R[i]|
        invariant Valid() && height == |s0.stk| + 1
        invariant InLoop(R, f0, s0, S, i, height - 1, k)
      {
        ghost var s := S;
        LoopFacts(R, f0, s0, s, i, height - 1, k);
        var j := R[i][k];
        if INDEX[j] == 0 {
          Traverse(j, f0, Unvisited(R, s));
        }
        LoopStep(R, f0, s0, s, S, i, height - 1, k, j);
        Absorb(i, j);
        k := k + 1;
      }
      LoopFacts(R, f0, s0, S, i, height - 1, k);
      Leave(i, height, f0, s0, k);
    }
  }
}
