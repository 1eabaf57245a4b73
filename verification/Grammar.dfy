/** The packed grammar of btyacc, items, parse trees and the strings they derive. */
module Grammars {

  /** Symbols 0..ntokens-1 are tokens (0 is the end marker), ntokens is the start symbol `$accept`,
      the rest are nonterminals. `ritem` holds the right-hand sides one after the other, each
      closed by minus its rule number; `rrhs[r]` is where rule `r` begins. Rules begin at 2. */
  datatype Grammar = Grammar(nsyms: nat, ntokens: nat, ritem: seq<int>, rlhs: seq<nat>, rrhs: seq<nat>) {

    function NRules(): nat { |rlhs| }

    predicate IsVar(symbol: int) { symbol >= ntokens }

    /** The user's start symbol. */
    function Goal(): nat { ntokens + 1 }

    predicate IsRule(r: int) { 2 <= r < |rlhs| && r + 1 < |rrhs| }

    function Length(r: nat): nat
      requires IsRule(r) && rrhs[r] < rrhs[r + 1]
    {
      rrhs[r + 1] - rrhs[r] - 1
    }

    /** Item `i` belongs to rule `r`: the dot stands before `ritem[i]`. */
    predicate ItemOf(i: int, r: int) {
      IsRule(r) && rrhs[r] <= i < rrhs[r + 1]
    }
  }

  /** One right-hand side: symbols, then minus the rule number. Only rule 2, `$accept : goal $end`, mentions the end marker. */
  ghost predicate RuleOk(G: Grammar, r: nat)
    requires G.IsRule(r)
  {
    && 1 <= G.rrhs[r] < G.rrhs[r + 1] <= |G.ritem|
    && -G.ritem[G.rrhs[r + 1] - 1] == r
    && (forall i :: G.rrhs[r] <= i < G.rrhs[r + 1] - 1 ==> SymbolOk(G, r, G.ritem[i]))
    && (if r == 2 then G.rlhs[r] == G.ntokens else G.ntokens < G.rlhs[r] < G.nsyms)
  }

  predicate SymbolOk(G: Grammar, r: nat, x: int) {
    0 <= x < G.nsyms && x != G.ntokens && (r > 2 ==> x > 0)
  }

  /** The layout produced by pack_grammar (reader.c). */
  ghost predicate WellFormed(G: Grammar) {
    && 1 <= G.ntokens && G.ntokens + 2 <= G.nsyms
    && |G.rlhs| >= 3 && |G.rrhs| == |G.rlhs| + 1 && G.rlhs[0] == 0 && G.rlhs[1] == 0
    && G.rrhs[2] == 1 && G.rrhs[3] == 4 && G.rrhs[|G.rlhs|] == |G.ritem|
    && |G.ritem| >= 4 && G.ritem[0] == -1 && G.ritem[1] == G.ntokens + 1 && G.ritem[2] == 0
    && (forall r: nat :: G.IsRule(r) ==> RuleOk(G, r))
  }

  // ----- Parse trees -----

  datatype Tree = Leaf(symbol: nat) | Node(rule: nat, kids: seq<Tree>)

  function Root(G: Grammar, t: Tree): nat {
    match t
    case Leaf(a) => a
    case Node(r, _) => if r < |G.rlhs| then G.rlhs[r] else 0
  }

  /** Leaves are tokens other than the end marker; each node spells the right-hand side of its rule. */
  ghost predicate TreeOk(G: Grammar, t: Tree)
    requires WellFormed(G)
  {
    match t
    case Leaf(a) => 0 < a < G.ntokens
    case Node(r, kids) =>
      && G.IsRule(r) && RuleOk(G, r) && |kids| == G.Length(r)
      && forall k :: 0 <= k < |kids| ==> Root(G, kids[k]) == G.ritem[G.rrhs[r] + k] && TreeOk(G, kids[k])
  }

  function Yield(t: Tree): seq<nat>
    decreases t, 1
  {
    match t
    case Leaf(a) => [a]
    case Node(_, kids) => YieldAll(kids)
  }

  function YieldAll(ts: seq<Tree>): seq<nat>
    decreases ts, 0
  {
    if |ts| == 0 then [] else YieldAll(ts[..|ts| - 1]) + Yield(ts[|ts| - 1])
  }

  lemma {:induction false} YieldAllConcat(a: seq<Tree>, b: seq<Tree>)
    ensures YieldAll(a + b) == YieldAll(a) + YieldAll(b)
    decreases |b|
  {
    if |b| == 0 {
      assert a + b == a;
    } else {
      var b' := b[..|b| - 1];
      assert (a + b)[..|a + b| - 1] == a + b';
      YieldAllConcat(a, b');
    }
  }

  lemma RuleBounds(G: Grammar, r: nat)
    requires WellFormed(G) && G.IsRule(r)
    ensures 1 <= G.rrhs[r] < G.rrhs[r + 1] <= |G.ritem|
    ensures G.ntokens <= G.rlhs[r] < G.nsyms
    ensures G.ritem[G.rrhs[r]] < G.nsyms && G.ritem[G.rrhs[r]] != G.ntokens
  {
    assert RuleOk(G, r);
    assert G.rrhs[r] < G.rrhs[r + 1] - 1 ==> SymbolOk(G, r, G.ritem[G.rrhs[r]]);
  }

  /** Right-hand sides are laid out in the order of their rules. */
  lemma {:induction false} RulesOrdered(G: Grammar, r: nat, s: nat)
    requires WellFormed(G) && 2 <= r < s <= |G.rlhs|
    ensures G.rrhs[r] < G.rrhs[s]
    decreases s
  {
    RuleBounds(G, s - 1);
    if r < s - 1 {
      RulesOrdered(G, r, s - 1);
    }
  }

  /** Every item belongs to exactly one rule. */
  lemma {:induction false} FindRule(G: Grammar, i: nat, hi: nat) returns (r: nat)
    requires WellFormed(G) && 3 <= hi <= |G.rlhs| && 1 <= i < G.rrhs[hi]
    ensures G.ItemOf(i, r)
    decreases hi
  {
    if i >= G.rrhs[hi - 1] {
      r := hi - 1;
    } else {
      r := FindRule(G, i, hi - 1);
    }
  }

  lemma RuleUnique(G: Grammar, i: nat, r: nat, s: nat)
    requires WellFormed(G) && G.ItemOf(i, r) && G.ItemOf(i, s)
    ensures r == s
  {
    if r + 1 < s { RulesOrdered(G, r + 1, s); }
    if s + 1 < r { RulesOrdered(G, s + 1, r); }
  }

  /** The dot is at the end of the right-hand side exactly at the closing entry, which names the rule. */
  lemma EndOfRule(G: Grammar, i: nat, r: nat)
    requires WellFormed(G) && G.ItemOf(i, r)
    ensures G.ritem[i] < 0 <==> i == G.rrhs[r + 1] - 1
    ensures G.ritem[i] < 0 ==> -G.ritem[i] == r
  {
    assert RuleOk(G, r);
    assert i < G.rrhs[r + 1] - 1 ==> SymbolOk(G, r, G.ritem[i]);
  }
}
