/** Soundness of the driver: with tables that encode the LR(0) automaton of a grammar,
    whatever it accepts is derivable from the goal symbol. */
module DriverSound {
  import opened Grammars
  import opened Automata
  import opened DriverMachine
  import opened DriverSearch

  /** External symbol values (pack_symbols, reader.c): distinct non-negative codes for tokens, 0 for the end
      marker; a dense numbering from 0 for the goal and the other nonterminals, -1 for `$accept`. */
  ghost predicate ValuesOk(G: Grammar, val: seq<int>)
    requires WellFormed(G)
  {
    && |val| == G.nsyms
    && val[0] == 0 && val[G.ntokens] == -1 && val[G.Goal()] == 0
    && (forall a :: 0 < a < G.ntokens ==> val[a] > 0)
    && (forall x :: G.Goal() < x < G.nsyms ==> val[x] > 0)
  }

  /** Entries of the conflict table from `ct` on: an optional shift, then reductions of state `s`, then -1. */
  ghost predicate ConflictOk(T: Tables, G: Grammar, A: Automaton, val: seq<int>, s: nat, a: int, ct: int)
    requires s < |A.shifts| == |A.reds|
  {
    && 0 <= ct < |T.ctable| && T.ctable[ct] >= -1
    && (T.ctable[ct] >= 0 ==> ShiftOk(G, A, val, s, a, T.ctable[ct]))
    && exists e :: First(T, ct) < e < |T.ctable| && ConflictEnd(T, A, s, ct, e)
  }

  ghost predicate ConflictEnd(T: Tables, A: Automaton, s: nat, ct: int, e: int)
    requires s < |A.reds| && 0 <= ct < e < |T.ctable|
  {
    T.ctable[e] < 0 && forall k :: ct < k < e ==> T.ctable[k] >= 0 && T.ctable[k] + 2 in A.reds[s]
  }

  /** Shifting the token with value `a` in state `s` may lead to `v`. */
  ghost predicate ShiftOk(G: Grammar, A: Automaton, val: seq<int>, s: nat, a: int, v: int)
    requires s < |A.shifts|
  {
    v >= 0 && v in A.shifts[s] && v < |A.acc| && A.acc[v] < G.ntokens && A.acc[v] < |val| && val[A.acc[v]] == a
  }

  /** One state's rows: every entry is an action of the automaton. With a default reduction they are not looked at. */
  ghost predicate RowsOk(T: Tables, G: Grammar, A: Automaton, val: seq<int>, s: nat)
    requires Sized(T) && WellFormed(G) && s < |A.shifts| == |A.reds| == |T.defred|
  {
    && (T.defred[s] != 0 ==> T.defred[s] + 2 in A.reds[s])
    && (forall a :: a >= 0 && T.defred[s] == 0 && Lookup(T, T.sindex[s], a).Some? ==>
          ShiftOk(G, A, val, s, a, Lookup(T, T.sindex[s], a).value))
    && (forall a :: a >= 0 && T.defred[s] == 0 && Lookup(T, T.rindex[s], a).Some? ==> Lookup(T, T.rindex[s], a).value + 2 in A.reds[s])
    && (forall a :: a >= 0 && T.defred[s] == 0 && Lookup(T, T.cindex[s], a).Some? ==> ConflictOk(T, G, A, val, s, a, Lookup(T, T.cindex[s], a).value))
  }

  /** The goto tables give the automaton's goto wherever it has one. */
  ghost predicate GotosOk(T: Tables, G: Grammar, A: Automaton, val: seq<int>, s: nat)
    requires Sized(T) && WellFormed(G) && ValuesOk(G, val) && s < |A.shifts|
  {
    forall t :: t in A.shifts[s] && t < |A.acc| && G.ntokens < A.acc[t] < G.nsyms ==>
      0 <= val[A.acc[t]] < |T.gindex| && Goto(T, s, val[A.acc[t]]) == t
  }

  ghost predicate RuleRowOk(T: Tables, G: Grammar, val: seq<int>, n: nat)
    requires n < |T.len| == |T.lhs| && WellFormed(G) && |val| == G.nsyms
  {
    && G.IsRule(n + 2) && RuleOk(G, n + 2)
    && T.len[n] == G.Length(n + 2) && T.lhs[n] == val[G.rlhs[n + 2]]
  }

  /** The tables encode the automaton `A` of grammar `G`. */
  ghost predicate Encodes(T: Tables, G: Grammar, A: Automaton, val: seq<int>) {
    && Sized(T) && IsLR0(G, A) && ValuesOk(G, val)
    && |T.defred| == A.NStates() && |T.len| == G.NRules() - 2
    && (forall n :: 0 <= n < |T.len| ==> RuleRowOk(T, G, val, n))
    && (forall s :: 0 <= s < A.NStates() ==> RowsOk(T, G, A, val, s) && GotosOk(T, G, A, val, s))
    && T.final in A.shifts[0] && T.final < A.NStates() && A.acc[T.final] == G.Goal()
  }

  // ----- What a configuration means -----

  function Values(val: seq<int>, w: seq<nat>): (r: seq<int>)
    requires forall k :: 0 <= k < |w| ==> w[k] < |val|
    ensures |r| == |w|
  {
    seq(|w|, k requires 0 <= k < |w| => val[w[k]])
  }

  ghost predicate SymbolsIn(w: seq<nat>, n: nat) {
    forall k :: 0 <= k < |w| ==> w[k] < n
  }

  /** Trees for the symbols on the stack. */
  ghost predicate Forest(G: Grammar, A: Automaton, p: seq<int>, f: seq<Tree>)
    requires WellFormed(G) && IsPath(A, p)
  {
    && |f| == |p| - 1
    && forall k :: 0 <= k < |f| ==> TreeOk(G, f[k]) && Root(G, f[k]) == A.acc[p[k + 1]]
  }

  /** The stack is a path of the automaton whose symbols derive exactly the tokens read so far. */
  ghost predicate Justified(G: Grammar, A: Automaton, val: seq<int>, inp: seq<int>, c: Config)
    requires WellFormed(G)
  {
    && IsPath(A, c.stack)
    && exists f :: Forest(G, A, c.stack, f) && Reads(val, inp, c.pos, YieldAll(f))
  }

  /** The first `pos` values of the input are those of the tokens `w`. */
  ghost predicate Reads(val: seq<int>, inp: seq<int>, pos: nat, w: seq<nat>) {
    && pos <= |inp| && SymbolsIn(w, |val|)
    && inp[..pos] == Values(val, w)
  }

  /** The whole input is derived from the goal symbol. */
  ghost predicate Derivable(G: Grammar, val: seq<int>, inp: seq<int>, pos: nat)
    requires WellFormed(G)
  {
    exists t :: TreeOk(G, t) && Root(G, t) == G.Goal() && Reads(val, inp, pos, Yield(t))
  }

  lemma ReadsMore(val: seq<int>, inp: seq<int>, pos: nat, w: seq<nat>, a: nat)
    requires Reads(val, inp, pos, w) && pos < |inp| && a < |val| && inp[pos] == val[a]
    ensures Reads(val, inp, pos + 1, w + [a])
  {
    assert inp[..pos + 1] == inp[..pos] + [inp[pos]];
    assert Values(val, w + [a]) == Values(val, w) + [val[a]];
  }

  lemma PathShift(A: Automaton, p: seq<int>, v: int)
    requires IsPath(A, p) && 0 <= v < |A.acc| && v in A.shifts[p[|p| - 1]]
    ensures IsPath(A, p + [v])
  {}

  lemma ForestShift(G: Grammar, A: Automaton, p: seq<int>, f: seq<Tree>, v: int)
    requires WellFormed(G) && IsPath(A, p) && IsPath(A, p + [v]) && 0 <= v < |A.acc| && Forest(G, A, p, f) && 0 < A.acc[v] < G.ntokens
    ensures Forest(G, A, p + [v], f + [Leaf(A.acc[v])])
  {
    assert forall k :: 0 <= k < |p + [v]| ==> 0 <= (p + [v])[k] < |A.acc|;
    hide WellFormed, IsPath;
    var f', p' := f + [Leaf(A.acc[v])], p + [v];
    forall k | 0 <= k < |f'| ensures TreeOk(G, f'[k]) && Root(G, f'[k]) == A.acc[p'[k + 1]] {
      if k < |f| { assert f'[k] == f[k] && p'[k + 1] == p[k + 1]; }
    }
  }

  /** A token that is shifted is not the end of the input. */
  lemma ShiftReads(T: Tables, G: Grammar, A: Automaton, val: seq<int>, inp: seq<int>, c: Config, v: int)
    requires Encodes(T, G, A, val) && Justified(G, A, val, inp, c)
    requires ShiftOk(G, A, val, Top(c), Token(inp, c.pos), v)
    ensures IsLR0(G, A) && WellFormed(G) && |val| == G.nsyms
    ensures c.pos < |inp| && inp[c.pos] == val[A.acc[v]]
  {
    hide RowsOk, GotosOk, RuleRowOk, StateOk, Reads, Forest, RuleOk;
    assert A.acc[v] > 0 by {
      PathShift(A, c.stack, v);
      EnteredBySymbol(G, A, c.stack + [v]);
    }
    assert val[A.acc[v]] > 0;
  }

  /** Shifting a token keeps the configuration justified. */
  lemma ShiftKeeps(T: Tables, G: Grammar, A: Automaton, val: seq<int>, inp: seq<int>, c: Config, v: int)
    requires Encodes(T, G, A, val) && Justified(G, A, val, inp, c)
    requires ShiftOk(G, A, val, Top(c), Token(inp, c.pos), v)
    ensures DoShift(c, v).Goes? && Justified(G, A, val, inp, DoShift(c, v).cfg)
  {
    ShiftReads(T, G, A, val, inp, c, v);
    hide IsLR0, WellFormed, Encodes, Reads, TreeOk, Yield, YieldAll, ValuesOk, RowsOk, Token;
    var f :| Forest(G, A, c.stack, f) && Reads(val, inp, c.pos, YieldAll(f));
    PathShift(A, c.stack, v);
    EnteredBySymbol(G, A, c.stack + [v]);
    ForestShift(G, A, c.stack, f, v);
    var t := Leaf(A.acc[v]);
    YieldAppend(f, t);
    LeafYield(A.acc[v]);
    ReadsMore(val, inp, c.pos, YieldAll(f), A.acc[v]);
  }

  lemma LeafYield(a: nat)
    ensures Yield(Leaf(a)) == [a]
  {}

  /** The trees on top of the stack after a reduction: those of the right-hand side become one node. */
  function Regroup(f: seq<Tree>, r: nat, L: nat): seq<Tree>
    requires L <= |f|
  {
    f[..|f| - L] + [Node(r, f[|f| - L..])]
  }

  lemma RegroupYield(f: seq<Tree>, r: nat, L: nat)
    requires L <= |f|
    ensures YieldAll(Regroup(f, r, L)) == YieldAll(f)
  {
    hide YieldAll, Yield;
    var below, kids := f[..|f| - L], f[|f| - L..];
    YieldAllConcat(below, kids);
    assert f == below + kids;
    YieldAppend(below, Node(r, kids));
    NodeYield(r, kids);
  }

  lemma NodeYield(r: nat, kids: seq<Tree>)
    ensures Yield(Node(r, kids)) == YieldAll(kids)
  {}

  lemma YieldAppend(f: seq<Tree>, t: Tree)
    ensures YieldAll(f + [t]) == YieldAll(f) + Yield(t)
  {
    assert (f + [t])[..|f|] == f;
  }

  lemma RegroupNode(G: Grammar, A: Automaton, p: seq<int>, f: seq<Tree>, r: nat)
    requires WellFormed(G) && IsPath(A, p) && Forest(G, A, p, f)
    requires G.IsRule(r) && RuleOk(G, r) && Spells(G, A, p, G.rrhs[r] + G.Length(r), G.Length(r))
    ensures TreeOk(G, Node(r, f[|f| - G.Length(r)..]))
  {
    hide WellFormed, IsPath;
    var L := G.Length(r);
    var kids := f[|f| - L..];
    forall k | 0 <= k < |kids| ensures Root(G, kids[k]) == G.ritem[G.rrhs[r] + k] && TreeOk(G, kids[k]) {
      var m := |f| - L + k;
      assert kids[k] == f[m];
      assert A.acc[p[m + 1]] == G.ritem[G.rrhs[r] + L - |p| + (m + 1)];
    }
  }

  lemma RegroupForest(G: Grammar, A: Automaton, p: seq<int>, f: seq<Tree>, r: nat, t: int)
    requires WellFormed(G) && IsPath(A, p) && Forest(G, A, p, f)
    requires G.IsRule(r) && RuleOk(G, r) && Spells(G, A, p, G.rrhs[r] + G.Length(r), G.Length(r))
    requires 0 <= t < |A.acc| && t in A.shifts[p[|p| - 1 - G.Length(r)]] && A.acc[t] == G.rlhs[r]
    ensures IsPath(A, p[..|p| - G.Length(r)] + [t])
    ensures Forest(G, A, p[..|p| - G.Length(r)] + [t], Regroup(f, r, G.Length(r)))
  {
    RegroupNode(G, A, p, f, r);
    hide WellFormed, TreeOk;
    var p' := p[..|p| - G.Length(r)] + [t];
    var f' := Regroup(f, r, G.Length(r));
    forall k | 0 <= k < |f'| ensures TreeOk(G, f'[k]) && Root(G, f'[k]) == A.acc[p'[k + 1]] {
      if k < |f'| - 1 {
        assert f'[k] == f[k] && p'[k + 1] == p[k + 1];
      }
    }
  }

  /** State 0 is only at the bottom. */
  lemma ZeroAtBottom(G: Grammar, A: Automaton, p: seq<int>)
    requires IsLR0(G, A) && IsPath(A, p) && p[|p| - 1] == 0
    ensures |p| == 1
  {
    if |p| > 1 { EnteredBySymbol(G, A, p); }
  }

  /** The state entered after a reduction. */
  lemma ReduceTarget(T: Tables, G: Grammar, A: Automaton, val: seq<int>, p: seq<int>, n: int) returns (t: int)
    requires Encodes(T, G, A, val) && IsPath(A, p) && n + 2 in A.reds[p[|p| - 1]]
    ensures G.IsRule(n + 2) && RuleOk(G, n + 2) && 0 <= n < |T.len| && T.len[n] == G.Length(n + 2) < |p|
    ensures var q := p[|p| - 1 - T.len[n]];
            && 0 <= t < |A.acc| && t in A.shifts[q] && A.acc[t] == G.rlhs[n + 2]
            && (if q == 0 && T.lhs[n] == 0 then t == T.final && G.rlhs[n + 2] == G.Goal()
                else 0 <= T.lhs[n] < |T.gindex| && t == Goto(T, q, T.lhs[n]))
  {
    ReductionSpellsStack(G, A, p, n + 2);
    LeftSideIsGoal(T, G, A, val, n + 2);
    assert RuleRowOk(T, G, val, n);
    hide IsLR0, WellFormed;
    var q := p[|p| - 1 - T.len[n]];
    var k :| 0 <= k < |A.shifts[q]| && A.shifts[q][k] < A.NStates() && A.acc[A.shifts[q][k]] == G.rlhs[n + 2];
    t := if q == 0 && T.lhs[n] == 0 then T.final else A.shifts[q][k];
    assert GotosOk(T, G, A, val, q);
  }

  /** The configuration after a reduction of length `L`, before the driver looks whether it is an accept. */
  lemma ReducedJustified(G: Grammar, A: Automaton, val: seq<int>, inp: seq<int>, c: Config, r: int, L: nat, t: int)
    requires IsLR0(G, A) && Justified(G, A, val, inp, c) && r in A.reds[Top(c)]
    requires G.IsRule(r) && RuleOk(G, r) && L == G.Length(r) < |c.stack|
    requires 0 <= t < |A.acc| && t in A.shifts[c.stack[|c.stack| - 1 - L]] && A.acc[t] == G.rlhs[r]
    ensures Justified(G, A, val, inp, Config(c.stack[..|c.stack| - L] + [t], c.pos))
    ensures c.stack[|c.stack| - 1 - L] == 0 && G.rlhs[r] == G.Goal() ==> Derivable(G, val, inp, c.pos)
  {
    assert WellFormed(G);
    hide IsLR0, WellFormed, Spells, TreeOk, Derivable, Reads, Yield, YieldAll, Regroup;
    var p := c.stack;
    var f :| Forest(G, A, p, f) && Reads(val, inp, c.pos, YieldAll(f));
    ReductionSpellsStack(G, A, p, r);
    RegroupForest(G, A, p, f, r, t);
    RegroupYield(f, r, L);
    PathPrefix(A, p, |p| - L);
    assert Justified(G, A, val, inp, Config(p[..|p| - L] + [t], c.pos));
    if p[|p| - 1 - L] == 0 && G.rlhs[r] == G.Goal() {
      GoalTree(G, A, val, inp, c.pos, p[..|p| - L], Regroup(f, r, L), t);
    }
  }

  /** One tree on top of the bottom state, rooted in the goal. */
  lemma GoalTree(G: Grammar, A: Automaton, val: seq<int>, inp: seq<int>, pos: nat, rest: seq<int>, f: seq<Tree>, t: int)
    requires IsLR0(G, A) && IsPath(A, rest) && rest[|rest| - 1] == 0 && IsPath(A, rest + [t])
    requires 0 <= t < |A.acc| && A.acc[t] == G.Goal() && Forest(G, A, rest + [t], f) && Reads(val, inp, pos, YieldAll(f))
    ensures Derivable(G, val, inp, pos)
  {
    ZeroAtBottom(G, A, rest);
    OneTree(f);
    assert TreeOk(G, f[0]) && Root(G, f[0]) == G.Goal();
  }

  /** Reducing a rule of the state never underflows the stack, keeps the configuration justified, and
      accepts only a derivation from the goal. */
  lemma ReduceKeeps(T: Tables, G: Grammar, A: Automaton, val: seq<int>, inp: seq<int>, c: Config, n: int)
    requires WellFormed(G) && Sized(T) && IsLR0(G, A) && IsPath(A, c.stack)
    requires Encodes(T, G, A, val) && Justified(G, A, val, inp, c) && n + 2 in A.reds[Top(c)]
    ensures NextJustified(G, A, val, inp, DoReduce(T, inp, c, n))
  {
    hide IsLR0, WellFormed, Encodes, RuleOk, Justified, Derivable;
    var t := ReduceTarget(T, G, A, val, c.stack, n);
    ReducedJustified(G, A, val, inp, c, n + 2, T.len[n], t);
    hide Justified, Derivable, Lookup;
    var rest := c.stack[..|c.stack| - T.len[n]];
    assert rest[|rest| - 1] == c.stack[|c.stack| - 1 - T.len[n]];
  }

  lemma OneTree(f: seq<Tree>)
    requires |f| == 1
    ensures YieldAll(f) == Yield(f[0])
  {
    YieldAppend([], f[0]);
    assert f == [] + [f[0]];
  }

  lemma LeftSideIsGoal(T: Tables, G: Grammar, A: Automaton, val: seq<int>, r: int)
    requires Encodes(T, G, A, val) && G.IsRule(r) && r > 2
    ensures G.ntokens < G.rlhs[r] < G.nsyms
    ensures val[G.rlhs[r]] == 0 <==> G.rlhs[r] == G.Goal()
  {
    assert RuleOk(G, r);
  }

  ghost predicate NextJustified(G: Grammar, A: Automaton, val: seq<int>, inp: seq<int>, x: Next)
    requires WellFormed(G)
  {
    match x
    case Goes(c) => Justified(G, A, val, inp, c)
    case Accepts(c) => Derivable(G, val, inp, c.pos) && Token(inp, c.pos) == 0
    case Crashes => false
  }

  /** Every alternative of a conflict keeps the configuration justified. */
  lemma PickKeeps(T: Tables, G: Grammar, A: Automaton, val: seq<int>, inp: seq<int>, c: Config, ct: int, k: int)
    requires Encodes(T, G, A, val) && Justified(G, A, val, inp, c)
    requires T.defred[Top(c)] == 0 && Lookup(T, T.cindex[Top(c)], Token(inp, c.pos)) == Some(ct)
    requires 0 <= ct < |T.ctable| && Alternative(T, ct, k)
    ensures NextJustified(G, A, val, inp, Pick(T, inp, c, ct, k))
  {
    var s := Top(c);
    assert RowsOk(T, G, A, val, s);
    assert ConflictOk(T, G, A, val, s, Token(inp, c.pos), ct);
    var e :| First(T, ct) < e < |T.ctable| && ConflictEnd(T, A, s, ct, e);
    if k == ct {
      ShiftKeeps(T, G, A, val, inp, c, T.ctable[k]);
    } else {
      assert k < e;
      ReduceKeeps(T, G, A, val, inp, c, T.ctable[k]);
    }
  }

  // ----- Whole runs -----

  /** Every configuration the driver holds, in use or saved, is justified. */
  ghost predicate MachineJustified(T: Tables, G: Grammar, A: Automaton, val: seq<int>, inp: seq<int>, m: Machine)
    requires WellFormed(G) && Sized(T)
  {
    && Justified(G, A, val, inp, m.cfg)
    && (forall k :: 0 <= k < |m.saves| ==> SavedJustified(T, G, A, val, inp, m.saves[k]))
    && (forall k :: 0 <= k < |m.path| ==> SavedJustified(T, G, A, val, inp, m.path[k]))
  }

  ghost predicate SavedJustified(T: Tables, G: Grammar, A: Automaton, val: seq<int>, inp: seq<int>, sv: Saved)
    requires WellFormed(G) && Sized(T)
  {
    && Justified(G, A, val, inp, sv.cfg) && HasState(T, sv.cfg) && T.defred[Top(sv.cfg)] == 0
    && var x := Lookup(T, T.cindex[Top(sv.cfg)], Token(inp, sv.cfg.pos));
    && x.Some? && 0 <= x.value < |T.ctable| && Alternative(T, x.value, sv.ctry)
  }

  ghost predicate ResultJustified(T: Tables, G: Grammar, A: Automaton, val: seq<int>, inp: seq<int>, r: Result)
    requires WellFormed(G) && Sized(T)
  {
    match r
    case Running(m) => MachineJustified(T, G, A, val, inp, m)
    case Accepted(c) => Derivable(G, val, inp, c.pos) && Token(inp, c.pos) == 0
    case Crashed => false
    case _ => true
  }

  lemma FollowKeeps(T: Tables, G: Grammar, A: Automaton, val: seq<int>, inp: seq<int>, m: Machine, x: Next)
    requires WellFormed(G) && Sized(T)
    requires forall k :: 0 <= k < |m.saves| ==> SavedJustified(T, G, A, val, inp, m.saves[k])
    requires forall k :: 0 <= k < |m.path| ==> SavedJustified(T, G, A, val, inp, m.path[k])
    requires NextJustified(G, A, val, inp, x)
    ensures ResultJustified(T, G, A, val, inp, Follow(m, x))
  {
    hide WellFormed, Justified, Derivable;
    if x.Accepts? && m.saves != [] && m.path == [] {
      assert SavedJustified(T, G, A, val, inp, m.saves[0]);
    }
  }

  /** The first alternative of a conflict exists, and the alternatives end inside the table. */
  lemma FirstAlternative(T: Tables, G: Grammar, A: Automaton, val: seq<int>, s: nat, a: nat, ct: int)
    requires Encodes(T, G, A, val) && s < A.NStates() && T.defred[s] == 0 && Lookup(T, T.cindex[s], a) == Some(ct)
    ensures 0 <= ct < |T.ctable| && Alternative(T, ct, First(T, ct))
    ensures forall k :: Alternative(T, ct, k) ==> 0 <= k + 1 < |T.ctable|
    ensures forall k :: Alternative(T, ct, k) && T.ctable[k + 1] >= 0 ==> Alternative(T, ct, k + 1)
  {
    assert RowsOk(T, G, A, val, s);
    assert ConflictOk(T, G, A, val, s, a, ct);
    var e :| First(T, ct) < e < |T.ctable| && ConflictEnd(T, A, s, ct, e);
    forall k | Alternative(T, ct, k) ensures k < e {
      assert T.ctable[e] < 0;
    }
  }

  /** What is known of the newest save, and of the machine without it. */
  lemma NewestSave(T: Tables, G: Grammar, A: Automaton, val: seq<int>, inp: seq<int>, m: Machine, sv: Saved)
    requires WellFormed(G) && Sized(T) && MachineJustified(T, G, A, val, inp, m) && m.saves != [] && sv == m.saves[|m.saves| - 1]
    ensures Justified(G, A, val, inp, sv.cfg) && HasState(T, sv.cfg) && T.defred[Top(sv.cfg)] == 0
    ensures var x := Lookup(T, T.cindex[Top(sv.cfg)], Token(inp, sv.cfg.pos));
      x.Some? && 0 <= x.value < |T.ctable| && Alternative(T, x.value, sv.ctry)
    ensures MachineJustified(T, G, A, val, inp, Machine(sv.cfg, m.saves[..|m.saves| - 1], m.path))
  {
    hide WellFormed, Justified, Alternative, Lookup;
    assert SavedJustified(T, G, A, val, inp, sv);
  }

  /** The next alternative takes the place of the newest save. */
  lemma SaveAgain(T: Tables, G: Grammar, A: Automaton, val: seq<int>, inp: seq<int>, m: Machine, ct: int, k: int)
    requires WellFormed(G) && Sized(T) && MachineJustified(T, G, A, val, inp, m) && HasState(T, m.cfg) && T.defred[Top(m.cfg)] == 0
    requires Lookup(T, T.cindex[Top(m.cfg)], Token(inp, m.cfg.pos)) == Some(ct) && 0 <= ct < |T.ctable| && Alternative(T, ct, k)
    ensures var saves := m.saves + [Saved(m.cfg, k)];
      && (forall j :: 0 <= j < |saves| ==> SavedJustified(T, G, A, val, inp, saves[j]))
      && (forall j :: 0 <= j < |m.path| ==> SavedJustified(T, G, A, val, inp, m.path[j]))
  {
    hide WellFormed, Justified, Alternative, Lookup;
    assert SavedJustified(T, G, A, val, inp, Saved(m.cfg, k));
    hide SavedJustified;
  }

  lemma BacktrackJustified(T: Tables, G: Grammar, A: Automaton, val: seq<int>, inp: seq<int>, m: Machine)
    requires WellFormed(G) && Sized(T) && |T.defred| == A.NStates()
    requires Encodes(T, G, A, val) && MachineJustified(T, G, A, val, inp, m)
    ensures ResultJustified(T, G, A, val, inp, Backtrack(T, inp, m))
    decreases |m.saves|
  {
    hide IsLR0, WellFormed, Justified, Derivable, ValuesOk, Encodes, DoReduce, Follow, NextJustified, MachineJustified, SavedJustified, Lookup;
    if m.saves != [] {
      var older, sv := m.saves[..|m.saves| - 1], m.saves[|m.saves| - 1];
      NewestSave(T, G, A, val, inp, m, sv);
      var s := Top(sv.cfg);
      var ct := Lookup(T, T.cindex[s], Token(inp, sv.cfg.pos)).value;
      FirstAlternative(T, G, A, val, s, Token(inp, sv.cfg.pos), ct);
      var k := sv.ctry + 1;
      if T.ctable[k] >= 0 {
        PickKeeps(T, G, A, val, inp, sv.cfg, ct, k);
        SaveAgain(T, G, A, val, inp, Machine(sv.cfg, older, m.path), ct, k);
        FollowKeeps(T, G, A, val, inp, Machine(sv.cfg, older + [Saved(sv.cfg, k)], m.path), Pick(T, inp, sv.cfg, ct, k));
      } else {
        BacktrackJustified(T, G, A, val, inp, Machine(sv.cfg, older, m.path));
      }
    }
  }

  /** On the second pass the conflict at hand is the recorded one. */
  lemma RecordedConflict(T: Tables, inp: seq<int>, c0: Config, m: Machine)
    requires Sized(T) && DriverInv(T, inp, c0, m) && m.path != []
    requires HasState(T, m.cfg) && Act(T, inp, m.cfg).Conflict?
    ensures m.path[0].cfg == m.cfg
  {
    var n: nat :| Following(T, inp, c0, m, n);
  }

  lemma ConflictJustified(T: Tables, G: Grammar, A: Automaton, val: seq<int>, inp: seq<int>, c0: Config, m: Machine, ct: int)
    requires Encodes(T, G, A, val) && MachineJustified(T, G, A, val, inp, m) && DriverInv(T, inp, c0, m)
    requires HasState(T, m.cfg) && Act(T, inp, m.cfg) == Conflict(ct)
    ensures ResultJustified(T, G, A, val, inp, Step(T, inp, m))
  {
    var s := Top(m.cfg);
    FirstAlternative(T, G, A, val, s, Token(inp, m.cfg.pos), ct);
    if m.path == [] {
      hide IsLR0, Justified;
      var sv := Saved(m.cfg, First(T, ct));
      PickKeeps(T, G, A, val, inp, m.cfg, ct, First(T, ct));
      FollowKeeps(T, G, A, val, inp, m.(saves := m.saves + [sv]), Pick(T, inp, m.cfg, ct, First(T, ct)));
    } else {
      RecordedConflict(T, inp, c0, m);
      hide IsLR0, Justified;
      assert SavedJustified(T, G, A, val, inp, m.path[0]);
      PickKeeps(T, G, A, val, inp, m.cfg, ct, m.path[0].ctry);
      FollowKeeps(T, G, A, val, inp, m.(path := m.path[1..]), Pick(T, inp, m.cfg, ct, m.path[0].ctry));
    }
  }

  /** Outside conflicts, the selected action is one of the automaton. */
  lemma SelectedAction(T: Tables, G: Grammar, A: Automaton, val: seq<int>, inp: seq<int>, c: Config)
    requires WellFormed(G) && Encodes(T, G, A, val) && Justified(G, A, val, inp, c)
    ensures IsLR0(G, A) && IsPath(A, c.stack) && HasState(T, c) && |A.shifts| == |A.reds| == |T.defred|
    ensures match Act(T, inp, c)
            case Reduce(n) => n + 2 in A.reds[Top(c)]
            case Shift(v) => ShiftOk(G, A, val, Top(c), Token(inp, c.pos), v)
            case _ => true
  {
    assert RowsOk(T, G, A, val, Top(c));
  }

  /** One pass of the driver loop keeps everything justified and never leaves an array. */
  lemma StepJustified(T: Tables, G: Grammar, A: Automaton, val: seq<int>, inp: seq<int>, c0: Config, m: Machine)
    requires WellFormed(G) && Sized(T) && |T.defred| == A.NStates()
    requires Encodes(T, G, A, val) && MachineJustified(T, G, A, val, inp, m) && DriverInv(T, inp, c0, m)
    ensures ResultJustified(T, G, A, val, inp, Step(T, inp, m))
  {
    SelectedAction(T, G, A, val, inp, m.cfg);
    hide IsLR0, WellFormed, Justified, Derivable, ValuesOk, DriverInv, IsPath, Encodes, ShiftOk, DoReduce;
    match Act(T, inp, m.cfg)
    case Reduce(n) =>
      ReduceKeeps(T, G, A, val, inp, m.cfg, n);
      FollowKeeps(T, G, A, val, inp, m, DoReduce(T, inp, m.cfg, n));
    case Shift(v) =>
      ShiftKeeps(T, G, A, val, inp, m.cfg, v);
      FollowKeeps(T, G, A, val, inp, m, DoShift(m.cfg, v));
    case Conflict(ct) => ConflictJustified(T, G, A, val, inp, c0, m, ct);
    case Error => BacktrackJustified(T, G, A, val, inp, m);
  }

  /** The invariant of a run: justified, and the state of a search or of its second pass. */
  ghost predicate Good(T: Tables, G: Grammar, A: Automaton, val: seq<int>, inp: seq<int>, m: Machine)
    requires WellFormed(G) && Sized(T)
  {
    MachineJustified(T, G, A, val, inp, m) && DriverInv(T, inp, Start().cfg, m)
  }

  /** What a run may end in: still good, or accepted with a derivation, or a syntax error. */
  ghost predicate GoodResult(T: Tables, G: Grammar, A: Automaton, val: seq<int>, inp: seq<int>, r: Result)
    requires WellFormed(G) && Sized(T)
  {
    match r
    case Running(m) => Good(T, G, A, val, inp, m)
    case Accepted(c) => Derivable(G, val, inp, c.pos) && Token(inp, c.pos) == 0
    case SyntaxError => true
    case Aborted => false
    case Crashed => false
  }

  lemma StepGood(T: Tables, G: Grammar, A: Automaton, val: seq<int>, inp: seq<int>, m: Machine)
    requires Encodes(T, G, A, val) && Good(T, G, A, val, inp, m)
    ensures GoodResult(T, G, A, val, inp, Step(T, inp, m))
  {
    StepJustified(T, G, A, val, inp, Start().cfg, m);
    StepKeeps(T, inp, Start().cfg, m);
  }

  lemma {:induction false} RunGood(T: Tables, G: Grammar, A: Automaton, val: seq<int>, inp: seq<int>, m: Machine, n: nat)
    requires WellFormed(G) && Sized(T) && Encodes(T, G, A, val) && Good(T, G, A, val, inp, m)
    ensures GoodResult(T, G, A, val, inp, Run(T, inp, m, n))
    decreases n
  {
    hide WellFormed, Sized, Good, Encodes, Step, Derivable;
    if n > 0 {
      StepGood(T, G, A, val, inp, m);
      match Step(T, inp, m)
      case Running(m') => RunGood(T, G, A, val, inp, m', n - 1);
      case _ =>
    }
  }

  /** Parser soundness: for every input and however long it runs, the driver never leaves an array, and if it
      accepts, the tokens before the end of input form the leaves of a parse tree of the goal symbol. */
  lemma DriverIsSound(T: Tables, G: Grammar, A: Automaton, val: seq<int>, inp: seq<int>, n: nat)
    requires Encodes(T, G, A, val)
    ensures !Run(T, inp, Start(), n).Crashed? && !Run(T, inp, Start(), n).Aborted?
    ensures Run(T, inp, Start(), n).Accepted? ==>
              var pos := Run(T, inp, Start(), n).final.pos;
              Derivable(G, val, inp, pos) && Token(inp, pos) == 0
  {
    var c := Start().cfg;
    assert IsPath(A, c.stack);
    assert Forest(G, A, c.stack, []) && Reads(val, inp, 0, YieldAll([])) by {
      assert inp[..0] == Values(val, []);
    }
    ReachableRefl(T, inp, c);
    RunGood(T, G, A, val, inp, Start(), n);
  }
}
