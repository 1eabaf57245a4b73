/** The goto columns (output.c, default_goto and save_column): the most frequent target of each nonterminal is its
    default, the other gotos are stored. */
module GotoActions {
  import opened Pigeonhole
  import opened Grammars
  import opened Automata
  import opened Gotos
  import opened Packing
  import opened TableRows

  /** The targets of the gotos on symbol x. */
  function Targets(G: Grammar, M: GotoMap, x: nat): seq<nat>
    requires IsNonterminal(G, x) && BasesOk(G, M)
  {
    M.to[M.base[x - G.ntokens]..M.base[x - G.ntokens + 1]]
  }

  /** How often t occurs. */
  function Freq(s: seq<nat>, t: nat): nat { multiset(s)[t] }

  lemma FreqMore(s: seq<nat>, v: nat, t: nat)
    ensures Freq([], t) == 0
    ensures Freq(s + [v], t) == Freq(s, t) + (if t == v then 1 else 0)
  {}

  /** d is the target met most often, and the least of these; 0 where there is none. */
  ghost predicate IsDefault(G: Grammar, M: GotoMap, x: nat, d: int) {
    && IsNonterminal(G, x) && BasesOk(G, M) && d >= 0
    && (forall t: nat :: Freq(Targets(G, M, x), t) <= Freq(Targets(G, M, x), d))
    && (forall t: nat :: t < d ==> Freq(Targets(G, M, x), t) < Freq(Targets(G, M, x), d))
  }

  /** There is only one. */
  lemma DefaultUnique(G: Grammar, M: GotoMap, x: nat, d: int, d': int)
    requires IsDefault(G, M, x, d) && IsDefault(G, M, x, d')
    ensures d == d' && (Targets(G, M, x) != [] ==> d in Targets(G, M, x)) && (Targets(G, M, x) == [] ==> d == 0)
  {
    var s := Targets(G, M, x);
    if s == [] {
      forall t: nat ensures Freq([], t) == 0 { FreqMore([], 0, t); }
      assert Freq(s, 0) == 0;
    } else {
      assert s[0] in multiset(s);
      assert Freq(s, s[0]) <= Freq(s, d);
      assert d in multiset(s);
    }
  }

  /** default_goto */
  method DefaultGoto(G: Grammar, M: GotoMap, nstates: nat, x: nat) returns (default_state: nat)
    requires IsNonterminal(G, x) && BasesOk(G, M) && forall k :: 0 <= k < |M.to| ==> M.to[k] < nstates
    ensures IsDefault(G, M, x, default_state)
  {
    hide Freq, WellFormed;
    forall t: nat ensures Freq([], t) == 0 { FreqMore([], 0, t); }
    var m, n := M.base[x - G.ntokens], M.base[x - G.ntokens + 1];
    ghost var all := M.to[m..n];
    if m == n {
      assert all == [];
      return 0;
    }
    var stateCount := new nat[nstates](_ => 0);
    var i := m;
    assert M.to[m..m] == [];
    while i < n
      invariant m <= i <= n && forall t: nat :: t < nstates ==> stateCount[t] == Freq(M.to[m..i], t)
    {
      assert M.to[m..i + 1] == M.to[m..i] + [M.to[i]];
      forall t: nat | t < nstates ensures Freq(M.to[m..i + 1], t) == stateCount[t] + (if t == M.to[i] then 1 else 0) {
        FreqMore(M.to[m..i], M.to[i], t);
      }
      stateCount[M.to[i]] := stateCount[M.to[i]] + 1;
      i := i + 1;
    }
    var max := 0;
    default_state := 0;
    i := 0;
    assert max <= stateCount[default_state] by { assert M.to[m] < nstates; }
    while i < nstates
      invariant i <= nstates && default_state < nstates && (max == stateCount[default_state] || (max == 0 && default_state == 0))
      invariant forall t: nat :: t < i ==> stateCount[t] <= max
      invariant forall t: nat :: t < default_state ==> stateCount[t] < max
    {
      if stateCount[i] > max {
        max := stateCount[i];
        default_state := i;
      }
      i := i + 1;
    }
    forall t: nat ensures Freq(all, t) <= Freq(all, default_state) {
      if t >= nstates { NotThere(all, t, nstates); }
    }
  }

  lemma NotThere(s: seq<nat>, t: nat, n: nat)
    requires t >= n && forall k :: 0 <= k < |s| ==> s[k] < n
    ensures Freq(s, t) == 0
  {
    assert t in multiset(s) <==> t in s;
  }

  /** The gotos from number m up to n that do not lead to d, in their order. */
  function ColumnOf(M: GotoMap, d: nat, m: nat, n: nat): Row
    requires n <= |M.from| == |M.to|
  {
    if n <= m then Row([], [])
    else
      var v := ColumnOf(M, d, m, n - 1);
      if M.to[n - 1] != d then Row(v.froms + [M.from[n - 1]], v.tos + [M.to[n - 1]]) else v
  }

  /** Column x lists the gotos on x that do not lead to the default. */
  ghost predicate ColumnHolds(G: Grammar, M: GotoMap, x: nat, d: nat, v: Row) {
    && IsNonterminal(G, x) && BasesOk(G, M) && v == ColumnOf(M, d, M.base[x - G.ntokens], M.base[x - G.ntokens + 1])
    && RowOk(v) && forall s: nat, t: int :: HasEntry(v, s, t) <==> InColumn(G, M, x, d, |M.from|, s, t)
  }

  ghost predicate InColumn(G: Grammar, M: GotoMap, x: nat, d: nat, n: nat, s: nat, t: int) {
    t != d && exists k: nat :: k < n && InSegment(G, M, x, k) && M.from[k] == s && M.to[k] == t
  }

  /** A column under construction, up to goto number n. */
  ghost predicate ColumnUpTo(G: Grammar, M: GotoMap, x: nat, d: nat, n: nat, v: Row) {
    && IsNonterminal(G, x) && BasesOk(G, M) && M.base[x - G.ntokens] <= n <= |M.from|
    && v == ColumnOf(M, d, M.base[x - G.ntokens], n) && RowOk(v)
    && (forall s: nat, t: int :: HasEntry(v, s, t) <==> InColumn(G, M, x, d, n, s, t))
    && (forall k: nat :: InSegment(G, M, x, k) && k >= n ==> M.from[k] !in v.froms)
    && (forall c :: c in v.froms ==> c >= 0)
  }

  lemma ColumnStep(G: Grammar, A: Automaton, M: GotoMap, x: nat, d: nat, n: nat, v: Row, v': Row)
    requires GotosExact(G, A, M) && InSegment(G, M, x, n) && ColumnUpTo(G, M, x, d, n, v)
    requires v' == if M.to[n] != d then Row(v.froms + [M.from[n]], v.tos + [M.to[n]]) else v
    ensures ColumnUpTo(G, M, x, d, n + 1, v')
  {
    var n' := n + 1;
    forall s: nat, t: int ensures InColumn(G, M, x, d, n', s, t) <==> InColumn(G, M, x, d, n, s, t) || (t != d && s == M.from[n] && t == M.to[n]) {
      if t != d && s == M.from[n] && t == M.to[n] { assert n < n'; }
    }
    if M.to[n] != d {
      forall s: nat, t: int ensures HasEntry(v', s, t) <==> HasEntry(v, s, t) || (s == M.from[n] && t == M.to[n]) {
        EntryAdded(v, M.from[n], M.to[n], s, t);
      }
      assert RowOk(v');
    }
    forall k: nat | InSegment(G, M, x, k) && k >= n' ensures M.from[k] !in v'.froms {
      assert M.from[n] < M.from[k];
    }
  }

  lemma EntryAdded(v: Row, c: int, u: int, s: int, t: int)
    requires |v.froms| == |v.tos|
    ensures HasEntry(Row(v.froms + [c], v.tos + [u]), s, t) <==> HasEntry(v, s, t) || (s == c && t == u)
  {
    var v' := Row(v.froms + [c], v.tos + [u]);
    if HasEntry(v, s, t) { EntryKept(v, v', s, t); }
    assert v'.froms[|v.froms|] == c && v'.tos[|v.froms|] == u;
  }

  /** save_column */
  method SaveColumn(G: Grammar, ghost A: Automaton, M: GotoMap, x: nat, d: nat) returns (v: Row)
    requires GotosExact(G, A, M) && IsNonterminal(G, x)
    ensures ColumnHolds(G, M, x, d, v)
  {
    var m, n := M.base[x - G.ntokens], M.base[x - G.ntokens + 1];
    v := Row([], []);
    ColumnStart(G, M, x, d, m);
    var i := m;
    hide GotosExact, ColumnUpTo;
    while i < n
      invariant m <= i <= n && ColumnUpTo(G, M, x, d, i, v)
    {
      assert InSegment(G, M, x, i);
      ColumnStep(G, A, M, x, d, i, v, if M.to[i] != d then Row(v.froms + [M.from[i]], v.tos + [M.to[i]]) else v);
      if M.to[i] != d {
        v := Row(v.froms + [M.from[i]], v.tos + [M.to[i]]);
      }
      i := i + 1;
    }
    ColumnEnd(G, M, x, d, n, v);
  }

  lemma ColumnStart(G: Grammar, M: GotoMap, x: nat, d: nat, m: nat)
    requires IsNonterminal(G, x) && BasesOk(G, M) && m == M.base[x - G.ntokens]
    ensures ColumnUpTo(G, M, x, d, m, Row([], []))
  {}

  lemma ColumnEnd(G: Grammar, M: GotoMap, x: nat, d: nat, n: nat, v: Row)
    requires IsNonterminal(G, x) && BasesOk(G, M) && n == M.base[x - G.ntokens + 1] && ColumnUpTo(G, M, x, d, n, v)
    ensures ColumnHolds(G, M, x, d, v)
  {
    forall s: nat, t: int ensures InColumn(G, M, x, d, n, s, t) <==> InColumn(G, M, x, d, |M.from|, s, t) {}
  }

  /** A column has at most one entry for each state. */
  lemma ColumnSize(G: Grammar, A: Automaton, M: GotoMap, x: nat, d: nat, v: Row)
    requires IsLR0(G, A) && GotosExact(G, A, M) && ColumnHolds(G, M, x, d, v)
    ensures |v.froms| <= |A.kernel| && forall k :: 0 <= k < |v.froms| ==> 0 <= v.froms[k] < |A.kernel|
  {
    hide WellFormed, StateOk;
    forall k | 0 <= k < |v.froms| ensures 0 <= v.froms[k] < |A.kernel| {
      assert HasEntry(v, v.froms[k], v.tos[k]);
      assert InColumn(G, M, x, d, |M.from|, v.froms[k], v.tos[k]);
    }
    DistinctBound(v.froms, |A.kernel|);
  }
}
