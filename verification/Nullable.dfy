/** Which symbols derive the empty string (lr0.c, set_nullable). */
module Nullables {
  import opened Grammars

  /** Some parse tree with this root has no leaves. */
  ghost predicate DerivesEmpty(G: Grammar, x: nat)
    requires WellFormed(G)
  {
    exists t :: TreeOk(G, t) && Root(G, t) == x && Yield(t) == []
  }

  /** Symbol m of the right-hand side of rule r. */
  function Rhs(G: Grammar, r: nat, m: nat): int
    requires G.IsRule(r) && G.rrhs[r] + m < |G.ritem|
  {
    G.ritem[G.rrhs[r] + m]
  }

  lemma {:induction false} YieldAllEmpty(ts: seq<Tree>)
    ensures YieldAll(ts) == [] <==> forall k :: 0 <= k < |ts| ==> Yield(ts[k]) == []
    decreases |ts|
  {
    if |ts| > 0 {
      var ts' := ts[..|ts| - 1];
      YieldAllEmpty(ts');
      assert forall k :: 0 <= k < |ts'| ==> ts'[k] == ts[k];
    }
  }

  // ----- A rule whose right-hand side vanishes -----

  /** The first m symbols of the right-hand side derive the empty string. */
  ghost predicate Vanishes(G: Grammar, r: nat, m: nat)
    requires WellFormed(G) && G.IsRule(r)
  {
    && G.rrhs[r] + m < G.rrhs[r + 1] <= |G.ritem|
    && forall k: nat :: k < m ==> Rhs(G, r, k) >= 0 && DerivesEmpty(G, Rhs(G, r, k))
  }

  /** Trees without leaves for the first m symbols. */
  lemma {:induction false} EmptyKids(G: Grammar, r: nat, m: nat) returns (kids: seq<Tree>)
    requires WellFormed(G) && G.IsRule(r) && Vanishes(G, r, m)
    ensures |kids| == m
    ensures forall k: nat :: k < m ==> TreeOk(G, kids[k]) && Root(G, kids[k]) == Rhs(G, r, k) && Yield(kids[k]) == []
    decreases m
  {
    if m == 0 {
      kids := [];
    } else {
      var kids' := EmptyKids(G, r, m - 1);
      assert DerivesEmpty(G, Rhs(G, r, m - 1));
      var t :| TreeOk(G, t) && Root(G, t) == Rhs(G, r, m - 1) && Yield(t) == [];
      kids := kids' + [t];
    }
  }

  lemma NodeOk(G: Grammar, r: nat, kids: seq<Tree>)
    requires WellFormed(G) && G.IsRule(r) && RuleOk(G, r) && |kids| == G.Length(r)
    requires forall k: nat :: k < |kids| ==> TreeOk(G, kids[k]) && Root(G, kids[k]) == Rhs(G, r, k)
    ensures TreeOk(G, Node(r, kids))
  {
    assert G.rrhs[r] + |kids| < |G.ritem|;
    hide RuleOk, WellFormed;
    forall k: nat | 0 <= k < |kids| ensures Root(G, kids[k]) == G.ritem[G.rrhs[r] + k] && TreeOk(G, kids[k]) {
      assert Root(G, kids[k]) == Rhs(G, r, k);
    }
  }

  lemma VanishingRule(G: Grammar, r: nat)
    requires WellFormed(G) && G.IsRule(r) && RuleOk(G, r) && Vanishes(G, r, G.Length(r))
    ensures DerivesEmpty(G, G.rlhs[r])
  {
    var kids := EmptyKids(G, r, G.Length(r));
    hide Vanishes, WellFormed, YieldAll, RuleOk;
    YieldAllEmpty(kids);
    var t := Node(r, kids);
    assert Yield(t) == [] && Root(G, t) == G.rlhs[r];
    NodeOk(G, r, kids);
  }

  // ----- The fixed point -----

  /** Rule r has nothing more to mark. */
  ghost predicate Satisfied(G: Grammar, marks: seq<bool>, r: nat)
    requires WellFormed(G) && G.IsRule(r) && |marks| == G.nsyms && RuleOk(G, r)
  {
    (forall k: nat :: k < G.Length(r) ==> Marked(marks, Rhs(G, r, k))) ==> Marked(marks, G.rlhs[r])
  }

  predicate Marked(marks: seq<bool>, x: int) { 0 <= x < |marks| && marks[x] }

  ghost predicate SatisfiedBelow(G: Grammar, marks: seq<bool>, n: nat)
    requires WellFormed(G) && |marks| == G.nsyms
  {
    forall r: nat :: r < n && G.IsRule(r) ==> RuleOk(G, r) && Satisfied(G, marks, r)
  }

  /** Every leafless tree has a marked root once all rules are satisfied. */
  lemma {:induction false} EmptyIsMarked(G: Grammar, marks: seq<bool>, t: Tree)
    requires WellFormed(G) && |marks| == G.nsyms && SatisfiedBelow(G, marks, |G.rlhs|)
    requires TreeOk(G, t) && Yield(t) == []
    ensures Marked(marks, Root(G, t))
    decreases t
  {
    match t
    case Leaf(a) =>
    case Node(r, kids) =>
      YieldAllEmpty(kids);
      forall k: nat | k < |kids| ensures Marked(marks, Rhs(G, r, k)) {
        EmptyIsMarked(G, marks, kids[k]);
      }
      assert Satisfied(G, marks, r);
  }

  ghost function Unmarked(marks: seq<bool>): set<int> { set x | 0 <= x < |marks| && !marks[x] }

  /** set_nullable */
  method SetNullable(G: Grammar) returns (nullable: array<bool>)
    requires WellFormed(G)
    ensures nullable.Length == G.nsyms && forall x: nat :: x < G.nsyms ==> (nullable[x] <==> DerivesEmpty(G, x))
  {
    nullable := new bool[G.nsyms](_ => false);
    var done := false;
    while !done
      invariant nullable.Length == G.nsyms && forall x: nat :: x < G.nsyms && nullable[x] ==> DerivesEmpty(G, x)
      invariant done ==> SatisfiedBelow(G, nullable[..], |G.rlhs|)
      decreases Unmarked(nullable[..]), !done
    {
      done := Pass(G, nullable);
    }
    hide DerivesEmpty, SatisfiedBelow, TreeOk, WellFormed, Yield;
    forall x: nat | x < G.nsyms && DerivesEmpty(G, x) ensures nullable[x] {
      EmptySymbolMarked(G, nullable[..], x);
    }
  }

  lemma EmptySymbolMarked(G: Grammar, marks: seq<bool>, x: nat)
    requires WellFormed(G) && |marks| == G.nsyms && SatisfiedBelow(G, marks, |G.rlhs|) && DerivesEmpty(G, x)
    ensures x < |marks| && marks[x]
  {
    hide SatisfiedBelow, WellFormed;
    var t :| TreeOk(G, t) && Root(G, t) == x && Yield(t) == [];
    EmptyIsMarked(G, marks, t);
  }

  /** One pass over all rules. */
  method Pass(G: Grammar, nullable: array<bool>) returns (done: bool)
    requires WellFormed(G) && nullable.Length == G.nsyms
    requires forall x: nat :: x < G.nsyms && nullable[x] ==> DerivesEmpty(G, x)
    modifies nullable
    ensures forall x: nat :: x < G.nsyms && nullable[x] ==> DerivesEmpty(G, x)
    ensures done ==> SatisfiedBelow(G, nullable[..], |G.rlhs|) && nullable[..] == old(nullable[..])
    ensures !done ==> Unmarked(nullable[..]) < old(Unmarked(nullable[..]))
  {
    done := true;
    var i := 1;
    ghost var r: nat := 2;
    while i < |G.ritem|
      invariant 2 <= r <= |G.rlhs| && i == G.rrhs[r] <= |G.ritem|
      invariant forall x: nat :: x < G.nsyms && nullable[x] ==> DerivesEmpty(G, x)
      invariant done ==> SatisfiedBelow(G, nullable[..], r) && nullable[..] == old(nullable[..])
      invariant !done ==> Unmarked(nullable[..]) < old(Unmarked(nullable[..]))
      decreases |G.ritem| - i
    {
      InRule(G, r);
      ghost var was := nullable[..];
      hide WellFormed, SatisfiedBelow, DerivesEmpty, Unmarked;
      var empty;
      i, empty := ScanRule(G, nullable, i, r);
      if empty {
        MarkedVanish(G, was, r);
        var j := G.rlhs[-G.ritem[i]];
        if !nullable[j] {
          nullable[j] := true;
          done := false;
          UnmarkedFalls(was, j, nullable[..]);
        }
      }
      if done { SatisfiedMore(G, was, r, empty); }
      i := i + 1;
      r := r + 1;
    }
    LastRule(G, r);
  }

  /** The inner loop: is every symbol of the right-hand side marked? */
  method ScanRule(G: Grammar, nullable: array<bool>, start: nat, ghost r: nat) returns (i: nat, empty: bool)
    requires WellFormed(G) && nullable.Length == G.nsyms && G.IsRule(r) && RuleOk(G, r) && start == G.rrhs[r]
    ensures i == G.rrhs[r + 1] - 1 && i < |G.ritem| && -G.ritem[i] == r
    ensures empty <==> forall k: nat :: k < G.Length(r) ==> Marked(nullable[..], Rhs(G, r, k))
  {
    i, empty := start, true;
    while G.ritem[i] >= 0
      invariant start <= i < G.rrhs[r + 1] && i < |G.ritem|
      invariant empty <==> forall k: nat :: k < i - start ==> Marked(nullable[..], Rhs(G, r, k))
      decreases |G.ritem| - i
    {
      assert SymbolOk(G, r, G.ritem[i]);
      assert G.ritem[i] == Rhs(G, r, i - start);
      if !nullable[G.ritem[i]] { empty := false; }
      i := i + 1;
    }
    assert i < G.rrhs[r + 1] - 1 ==> SymbolOk(G, r, G.ritem[i]);
  }

  /** The rule at this place. */
  lemma InRule(G: Grammar, r: nat)
    requires WellFormed(G) && 2 <= r <= |G.rlhs| && G.rrhs[r] < |G.ritem|
    ensures G.IsRule(r) && RuleOk(G, r) && G.rlhs[r] < G.nsyms && G.rrhs[r + 1] <= |G.ritem|
  {}

  lemma LastRule(G: Grammar, r: nat)
    requires WellFormed(G) && 2 <= r <= |G.rlhs|
    ensures G.rrhs[r] >= |G.ritem| ==> r == |G.rlhs|
  {
    if r < |G.rlhs| { RuleBounds(G, r); }
  }

  lemma UnmarkedFalls(was: seq<bool>, j: nat, now: seq<bool>)
    requires j < |was| && !was[j] && now == was[j := true]
    ensures Unmarked(now) < Unmarked(was)
  {
    assert j in Unmarked(was);
  }

  lemma MarkedVanish(G: Grammar, marks: seq<bool>, r: nat)
    requires WellFormed(G) && G.IsRule(r) && RuleOk(G, r) && |marks| == G.nsyms
    requires forall x: nat :: x < G.nsyms && marks[x] ==> DerivesEmpty(G, x)
    requires forall k: nat :: k < G.Length(r) ==> Marked(marks, Rhs(G, r, k))
    ensures DerivesEmpty(G, G.rlhs[r])
  {
    hide DerivesEmpty, WellFormed;
    VanishingRule(G, r);
  }

  lemma SatisfiedMore(G: Grammar, marks: seq<bool>, r: nat, empty: bool)
    requires WellFormed(G) && |marks| == G.nsyms && SatisfiedBelow(G, marks, r) && G.IsRule(r) && RuleOk(G, r)
    requires empty <==> forall k: nat :: k < G.Length(r) ==> Marked(marks, Rhs(G, r, k))
    requires empty ==> Marked(marks, G.rlhs[r])
    ensures SatisfiedBelow(G, marks, r + 1)
  {}
}
