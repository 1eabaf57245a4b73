/** Item sets: what the closure of a kernel is, independently of how closure.c computes it. */
module Items {
  import opened Grammars
  import opened Relation

  /** Rule `r` is v : w ... with `v` and `w` nonterminals, counted from the start symbol. */
  predicate LeftStep(G: Grammar, r: nat, v: nat, w: nat) {
    G.IsRule(r) && G.rlhs[r] == v + G.ntokens && G.rrhs[r] < |G.ritem| && G.ritem[G.rrhs[r]] == w + G.ntokens
  }

  /** The nonterminals that begin a right-hand side of `v` among the rules below `r`. */
  function Lefts(G: Grammar, v: nat, r: nat): (s: seq<nat>)
    requires WellFormed(G) && r <= |G.rlhs|
    ensures forall w: nat :: w in s <==> exists q: nat :: q < r && LeftStep(G, q, v, w)
  {
    if r <= 2 then []
    else
      var p := r - 1;
      RuleBounds(G, p);
      var first := G.ritem[G.rrhs[p]];
      var s := Lefts(G, v, p);
      if G.rlhs[p] == v + G.ntokens && first >= G.ntokens then
        assert LeftStep(G, p, v, first - G.ntokens);
        s + [first - G.ntokens]
      else s
  }

  function NVars(G: Grammar): nat
    requires WellFormed(G)
  {
    G.nsyms - G.ntokens
  }

  /** The leftmost-nonterminal relation. */
  function LeftRel(G: Grammar): (R: Rel)
    requires WellFormed(G)
    ensures |R| == NVars(G)
    ensures forall v: nat, w: nat :: Edge(R, v, w) <==> v < NVars(G) && exists q: nat :: LeftStep(G, q, v, w)
  {
    seq(NVars(G), v requires 0 <= v < NVars(G) => Lefts(G, v, |G.rlhs|))
  }

  lemma LeftRelValid(G: Grammar)
    requires WellFormed(G)
    ensures ValidRel(LeftRel(G))
  {
    var R := LeftRel(G);
    forall i, k | 0 <= i < |R| && 0 <= k < |R[i]| ensures R[i][k] < |R| {
      assert Edge(R, i, R[i][k]);
      var q: nat :| LeftStep(G, q, i, R[i][k]);
      RuleBounds(G, q);
    }
  }

  ghost predicate IsItem(G: Grammar, i: int) {
    1 <= i < |G.ritem|
  }

  ghost predicate AreItems(G: Grammar, K: set<int>) {
    forall i :: i in K ==> IsItem(G, i)
  }

  /** Rule `r` is brought in by an item of `K` with the dot before a nonterminal that can begin with its left side. */
  ghost predicate BroughtIn(G: Grammar, K: set<int>, r: nat)
    requires WellFormed(G) && AreItems(G, K)
  {
    G.IsRule(r) &&
    exists k :: k in K && G.IsVar(G.ritem[k])
      && Reach(LeftRel(G), G.ritem[k] - G.ntokens, G.rlhs[r] - G.ntokens)
  }

  /** Membership in the closure of kernel `K`. */
  ghost predicate InClosure(G: Grammar, K: set<int>, i: int)
    requires WellFormed(G) && AreItems(G, K)
  {
    i in K || exists r: nat :: BroughtIn(G, K, r) && i == G.rrhs[r]
  }

  /** A set of items closed under adding all initial items of a nonterminal after a dot. */
  ghost predicate ClosedItems(G: Grammar, S: iset<int>)
    requires WellFormed(G)
  {
    forall i, r :: i in S && IsItem(G, i) && G.IsRule(r) && G.rlhs[r] == G.ritem[i] ==> G.rrhs[r] in S
  }

  /** What a brought-in rule begins with is brought in too. */
  lemma BroughtInThrough(G: Grammar, K: set<int>, q: nat, r: nat)
    requires WellFormed(G) && AreItems(G, K) && BroughtIn(G, K, q) && G.IsRule(r)
    requires G.rlhs[q] >= G.ntokens && G.rlhs[r] >= G.ntokens && LeftStep(G, q, G.rlhs[q] - G.ntokens, G.rlhs[r] - G.ntokens)
    ensures BroughtIn(G, K, r)
  {
    hide WellFormed, LeftStep, LeftRel, Reach;
    var R := LeftRel(G);
    var u: nat, v: nat := G.rlhs[q] - G.ntokens, G.rlhs[r] - G.ntokens;
    var k :| k in K && G.IsVar(G.ritem[k]) && Reach(R, G.ritem[k] - G.ntokens, u);
    LeftIsEdge(G, q, u, v);
    ReachRefl(R, v);
    ReachStep(R, u, v, v);
    ReachTrans(R, G.ritem[k] - G.ntokens, u, v);
  }

  lemma LeftIsEdge(G: Grammar, q: nat, u: nat, v: nat)
    requires WellFormed(G) && LeftStep(G, q, u, v)
    ensures Edge(LeftRel(G), u, v)
  {
    RuleBounds(G, q);
  }

  /** The closure is closed. */
  lemma ClosureCloses(G: Grammar, K: set<int>, i: int, r: nat)
    requires WellFormed(G) && AreItems(G, K)
    requires InClosure(G, K, i) && IsItem(G, i) && G.IsRule(r) && G.rlhs[r] == G.ritem[i]
    ensures BroughtIn(G, K, r)
  {
    RuleBounds(G, r);
    if i in K {
      ReachRefl(LeftRel(G), G.rlhs[r] - G.ntokens);
    } else {
      var q: nat :| BroughtIn(G, K, q) && i == G.rrhs[q];
      RuleBounds(G, q);
      BroughtInThrough(G, K, q, r);
    }
  }

  /** All initial items of `v` are in `S`. */
  ghost predicate InitialsIn(G: Grammar, S: iset<int>, v: nat)
    requires WellFormed(G)
  {
    forall r: nat :: G.IsRule(r) && G.rlhs[r] == v + G.ntokens ==> G.rrhs[r] in S
  }

  lemma InitialsFlow(G: Grammar, S: iset<int>, v: nat, w: nat)
    requires WellFormed(G) && ClosedItems(G, S) && InitialsIn(G, S, v) && Edge(LeftRel(G), v, w)
    ensures InitialsIn(G, S, w)
  {
    var q: nat :| LeftStep(G, q, v, w);
    RuleBounds(G, q);
    hide WellFormed;
    assert G.rrhs[q] in S;
  }

  /** A closed set has all initial items of the nonterminal after a dot. */
  lemma VarInitials(G: Grammar, S: iset<int>, k: int)
    requires WellFormed(G) && ClosedItems(G, S) && k in S && IsItem(G, k) && G.IsVar(G.ritem[k])
    ensures InitialsIn(G, S, G.ritem[k] - G.ntokens)
  {}

  lemma InitialOf(G: Grammar, S: iset<int>, r: nat, v: nat)
    requires WellFormed(G) && InitialsIn(G, S, v) && G.IsRule(r) && G.rlhs[r] == v + G.ntokens
    ensures G.rrhs[r] in S
  {}

  /** The closure is contained in every closed set that contains the kernel. */
  lemma ClosureWithin(G: Grammar, K: set<int>, S: iset<int>, r: nat)
    requires WellFormed(G) && AreItems(G, K) && ClosedItems(G, S) && BroughtIn(G, K, r)
    requires forall k :: k in K ==> k in S
    ensures G.rrhs[r] in S
  {
    RuleBounds(G, r);
    hide WellFormed, LeftRel, Reach, Edge, ClosedItems, InitialsIn;
    var k :| k in K && G.IsVar(G.ritem[k]) && Reach(LeftRel(G), G.ritem[k] - G.ntokens, G.rlhs[r] - G.ntokens);
    VarInitials(G, S, k);
    InitialsReach(G, S, G.ritem[k] - G.ntokens, G.rlhs[r] - G.ntokens);
    InitialOf(G, S, r, G.rlhs[r] - G.ntokens);
  }

  lemma InitialsReach(G: Grammar, S: iset<int>, v: nat, w: nat)
    requires WellFormed(G) && ClosedItems(G, S) && InitialsIn(G, S, v) && Reach(LeftRel(G), v, w)
    ensures InitialsIn(G, S, w)
  {
    hide *;
    var X := iset u: nat | InitialsIn(G, S, u);
    forall a: nat, b: nat | a in X && Edge(LeftRel(G), a, b) ensures b in X {
      InitialsFlow(G, S, a, b);
    }
    ReachStaysIn(LeftRel(G), X, v, w);
  }

  /** The closure contains the kernel, is closed, and is the least such set. */
  lemma ClosureIsLeast(G: Grammar, K: set<int>)
    requires WellFormed(G) && AreItems(G, K)
    ensures ClosedItems(G, iset i | InClosure(G, K, i))
    ensures forall S: iset<int>, i :: ClosedItems(G, S) && (forall k :: k in K ==> k in S) && InClosure(G, K, i) ==> i in S
  {
    hide WellFormed;
    forall i: int, r: nat | InClosure(G, K, i) && IsItem(G, i) && G.IsRule(r) && G.rlhs[r] == G.ritem[i]
      ensures InClosure(G, K, G.rrhs[r])
    {
      ClosureCloses(G, K, i, r);
    }
    forall S: iset<int>, i | ClosedItems(G, S) && (forall k :: k in K ==> k in S) && InClosure(G, K, i)
      ensures i in S
    {
      if i !in K {
        var r: nat :| BroughtIn(G, K, r) && i == G.rrhs[r];
        ClosureWithin(G, K, S, r);
      }
    }
  }

  /** The last step of a path. */
  lemma LastStep(R: Rel, x: nat, y: nat) returns (z: nat)
    requires Reach(R, x, y) && x != y
    ensures Reach(R, x, z) && Edge(R, z, y)
  {
    var p :| Path(R, p) && p[0] == x && p[|p| - 1] == y;
    var m := |p| - 2;
    z := p[m];
    assert Edge(R, p[m], p[m + 1]);
    var q := p[..m + 1];
    forall j | 0 <= j < |q| - 1 ensures Edge(R, q[j], q[j + 1]) {
      assert Edge(R, p[j], p[j + 1]);
    }
    assert Path(R, q) && q[0] == x && q[|q| - 1] == z;
  }

  /** An item brought in by the closure is called for by some item of the closure. */
  lemma ClosureSupported(G: Grammar, K: set<int>, r: nat) returns (i: int)
    requires WellFormed(G) && AreItems(G, K) && BroughtIn(G, K, r)
    ensures InClosure(G, K, i) && IsItem(G, i) && G.ritem[i] == G.rlhs[r]
  {
    var R := LeftRel(G);
    RuleBounds(G, r);
    var v: nat := G.rlhs[r] - G.ntokens;
    var k :| k in K && G.IsVar(G.ritem[k]) && Reach(R, G.ritem[k] - G.ntokens, v);
    i := k;
    if G.ritem[k] != G.rlhs[r] {
      var u := LastStep(R, G.ritem[k] - G.ntokens, v);
      var q: nat :| LeftStep(G, q, u, v);
      RuleBounds(G, q);
      hide WellFormed;
      assert G.rlhs[q] - G.ntokens == u;
      assert BroughtIn(G, K, q);
      i := G.rrhs[q];
    }
  }
}
