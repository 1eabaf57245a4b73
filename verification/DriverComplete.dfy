/** Completeness of the driver: with tables that offer every shift of the automaton and every reduction its LALR
    lookaheads allow, each sentence of the grammar can be accepted. */
module DriverComplete {
  import opened Grammars
  import opened Automata
  import opened Gotos
  import opened Digraphs
  import opened LalrSpec
  import opened LalrFollow
  import opened DriverMachine
  import opened DriverSearch
  import opened DriverSound

  // ----- Tables that leave nothing out -----

  /** In state s, with the token of value v ahead, the tables allow the shift to t. */
  ghost predicate OffersShift(T: Tables, s: int, v: int, t: int) {
    && Sized(T) && 0 <= s < |T.defred| && T.defred[s] == 0
    && match Lookup(T, T.cindex[s], v)
       case Some(ct) => 0 <= ct < |T.ctable| && T.ctable[ct] == t >= 0
       case None => Lookup(T, T.sindex[s], v) == Some(t)
  }

  /** The same for a reduction by rule n (numbered as the driver does). */
  ghost predicate OffersReduce(T: Tables, s: int, v: int, n: int) {
    && Sized(T) && 0 <= s < |T.defred| && n != 0
    && (T.defred[s] == n || (T.defred[s] == 0 &&
        match Lookup(T, T.cindex[s], v)
        case Some(ct) => exists k :: Alternative(T, ct, k) && k != ct && T.ctable[k] == n
        case None => Lookup(T, T.sindex[s], v) == None && Lookup(T, T.rindex[s], v) == Some(n)))
  }

  ghost predicate OffersAll(T: Tables, G: Grammar, A: Automaton, M: GotoMap, f: Sets, val: seq<int>) {
    && |val| == G.nsyms
    && (forall s: int, a: nat, t: int :: 0 < a < G.ntokens && a < |val| && IsGoto(A, s, a, t) ==> OffersShift(T, s, val[a], t))
    && (forall s: nat, r: nat, a: nat :: a < G.ntokens && a < |val| && InLookahead(G, A, M, f, s, r, a) ==> OffersReduce(T, s, val[a], r - 2))
  }

  lemma ShiftHope(T: Tables, inp: seq<int>, c: Config, t: int)
    requires Sized(T) && |c.stack| > 0 && OffersShift(T, Top(c), Token(inp, c.pos), t)
    requires !Hopeless(T, inp, Config(c.stack + [t], c.pos + 1))
    ensures !Hopeless(T, inp, c)
  {
    var n: nat :| CanAccept(T, inp, Config(c.stack + [t], c.pos + 1), n);
    assert LeadsToAccept(T, inp, DoShift(c, t), n);
    match Lookup(T, T.cindex[Top(c)], Token(inp, c.pos))
    case Some(ct) =>
      assert Alternative(T, ct, ct);
      assert Pick(T, inp, c, ct, ct) == DoShift(c, t);
      assert CanAccept(T, inp, c, n + 1);
    case None => assert CanAccept(T, inp, c, n + 1);
  }

  lemma ReduceHope(T: Tables, inp: seq<int>, c: Config, r: int)
    requires Sized(T) && |c.stack| > 0 && OffersReduce(T, Top(c), Token(inp, c.pos), r)
    requires !HopelessNext(T, inp, DoReduce(T, inp, c, r))
    ensures !Hopeless(T, inp, c)
  {
    var n: nat :| LeadsToAccept(T, inp, DoReduce(T, inp, c, r), n);
    hide DoReduce;
    if T.defred[Top(c)] == 0 && Lookup(T, T.cindex[Top(c)], Token(inp, c.pos)).Some? {
      var ct := Lookup(T, T.cindex[Top(c)], Token(inp, c.pos)).value;
      var k :| Alternative(T, ct, k) && k != ct && T.ctable[k] == r;
      assert Pick(T, inp, c, ct, k) == DoReduce(T, inp, c, r);
    }
    assert CanAccept(T, inp, c, n + 1);
  }

  // ----- The setting of the proof -----

  /** The k-th token of a sentence, followed by end markers. */
  function Tok(w: seq<nat>, k: nat): nat { if k < |w| then w[k] else 0 }

  datatype Setting = Setting(T: Tables, G: Grammar, A: Automaton, val: seq<int>, M: GotoMap, rd: Sets, f: Sets, inp: seq<int>, w: seq<nat>) {

    ghost predicate Ok() {
      && Sized(T) && Encodes(T, G, A, val) && GotosExact(G, A, M) && ReadsUp(G, A, M, rd) && FollowsUp(G, A, M, rd, f)
      && OffersAll(T, G, A, M, f, val) && SymbolsIn(w, G.ntokens)
      && (forall k: nat :: k <= |w| ==> Tok(w, k) < |val| && Token(inp, k) == val[Tok(w, k)])
    }

    ghost predicate Hope(stack: seq<int>, pos: nat)
      requires Sized(T)
    {
      !Hopeless(T, inp, Config(stack, pos))
    }

    /** After symbol x has been read from the top of the stack: the goal before the end marker is accepted at once. */
    ghost predicate HopeAfter(stack: seq<int>, x: int, u: int, pos: nat)
      requires Sized(T) && |stack| > 0
    {
      (stack[|stack| - 1] == 0 && x == G.Goal() && Tok(w, pos) == 0) || Hope(stack + [u], pos)
    }

    /** Goto i starts in the top state with symbol x, and the next token follows it. */
    ghost predicate Expected(stack: seq<int>, x: int, i: nat, pos: nat)
      requires |stack| > 0
    {
      Numbered(M, i) && i < |f| && M.from[i] == stack[|stack| - 1] && SymbolOf(A, M, i) == x && Tok(w, pos) in f[i]
    }
  }

  lemma Parts(S: Setting)
    requires S.Ok()
    ensures Sized(S.T) && Encodes(S.T, S.G, S.A, S.val) && IsLR0(S.G, S.A) && GotosExact(S.G, S.A, S.M)
    ensures WellFormed(S.G) && ReadsUp(S.G, S.A, S.M, S.rd) && FollowsUp(S.G, S.A, S.M, S.rd, S.f)
    ensures ValuesOk(S.G, S.val) && |S.f| == Count(S.M)
  {}

  // ----- One reduction -----

  /** Popping the right-hand side leaves the stack as it was, and the goto is the automaton's. */
  lemma ReducesTo(S: Setting, stack: seq<int>, top: seq<nat>, r: nat, u: nat, pos: nat)
    requires S.Ok() && |stack| > 0 && S.G.IsRule(r) && r > 2 && |top| == |Body(S.G, r)|
    requires IsGoto(S.A, stack[|stack| - 1], S.G.rlhs[r], u) && pos <= |S.w|
    requires S.HopeAfter(stack, S.G.rlhs[r], u, pos)
    ensures !HopelessNext(S.T, S.inp, DoReduce(S.T, S.inp, Config(stack + top, pos), r - 2))
  {
    Parts(S);
    var n, q := r - 2, stack[|stack| - 1];
    var c := Config(stack + top, pos);
    BodyLength(S.G, r);
    LeftSideIsGoal(S.T, S.G, S.A, S.val, r);
    assert RuleRowOk(S.T, S.G, S.val, n);
    assert GotosOk(S.T, S.G, S.A, S.val, q);
    TokenZero(S, pos);
    hide IsLR0, WellFormed, GotosExact, ReadsUp, FollowsUp, OffersAll, RowsOk, ValuesOk, Lookup;
    assert c.stack[..|c.stack| - S.T.len[n]] == stack;
    if q == 0 && S.T.lhs[n] == 0 {
      FinalIsGoto(S, u);
    }
    var next := DoReduce(S.T, S.inp, c, n);
    if next.Accepts? {
      assert LeadsToAccept(S.T, S.inp, next, 0);
    } else {
      assert next == Goes(Config(stack + [u], pos));
      var k: nat :| CanAccept(S.T, S.inp, Config(stack + [u], pos), k);
      assert LeadsToAccept(S.T, S.inp, next, k);
    }
  }

  lemma TokenZero(S: Setting, pos: nat)
    requires S.Ok() && pos <= |S.w| && WellFormed(S.G) && ValuesOk(S.G, S.val)
    ensures Tok(S.w, pos) == 0 ==> Token(S.inp, pos) == 0
  {}

  lemma FinalIsGoto(S: Setting, u: nat)
    requires S.Ok() && IsGoto(S.A, 0, S.G.Goal(), u)
    ensures S.T.final == u
  {
    GotoUnique(S.G, S.A, 0, S.G.Goal(), u, S.T.final);
  }

  /** A prefix of a walk through a rule is on the rule's track. */
  lemma TrackPrefix(G: Grammar, A: Automaton, u: int, r: nat, p: seq<nat>, m: nat)
    requires IsLR0(G, A) && G.IsRule(r) && r > 2 && Walk(A, p, Body(G, r)) && IsGoto(A, p[0], G.rlhs[r], u) && m <= |Body(G, r)|
    ensures OnTrack(G, A, p[..m + 1], r, m)
  {
    hide IsLR0, IsGoto, Body;
    var p' := TrackFrom(G, A, p[0], u, r, m);
    assert Walk(A, p[..m + 1], Body(G, r)[..m]);
    WalkUnique(G, A, p', p[..m + 1], Body(G, r)[..m]);
  }

  lemma OffersHere(S: Setting, s: nat, r: nat, i: nat, p: seq<nat>, pos: nat)
    requires S.Ok() && pos <= |S.w| && RuleFrom(S.G, S.A, S.M, i, r, p) && p[|Body(S.G, r)|] == s && i < |S.f| && Tok(S.w, pos) in S.f[i]
    requires Tok(S.w, pos) < S.G.ntokens
    ensures OffersReduce(S.T, s, Token(S.inp, pos), r - 2)
  {
    hide RuleFrom, OffersReduce;
    assert Lookback(S.G, S.A, S.M, s, r, i);
    assert InLookahead(S.G, S.A, S.M, S.f, s, r, Tok(S.w, pos));
  }

  // ----- Along a parse tree -----

  /** The sentence continues with y at pos. */
  ghost predicate Continues(w: seq<nat>, pos: nat, y: seq<nat>) {
    pos + |y| <= |w| && w[pos..pos + |y|] == y
  }

  lemma ContinuesSplit(w: seq<nat>, pos: nat, y: seq<nat>, z: seq<nat>)
    requires Continues(w, pos, y + z)
    ensures Continues(w, pos, y) && Continues(w, pos + |y|, z)
    ensures z != [] ==> Tok(w, pos + |y|) == z[0]
  {
    assert w[pos..pos + |y|] == (y + z)[..|y|];
    assert w[pos + |y|..pos + |y| + |z|] == (y + z)[|y|..];
    assert z != [] ==> w[pos + |y|..pos + |y| + |z|][0] == w[pos + |y|];
  }

  /** Where the m-th kid of a node begins. */
  function KidPos(kids: seq<Tree>, m: nat, pos: nat): nat
    requires m <= |kids|
  {
    pos + |YieldAll(kids[..m])|
  }

  lemma KidYields(kids: seq<Tree>, m: nat, w: seq<nat>, pos: nat)
    requires m < |kids| && Continues(w, pos, YieldAll(kids))
    ensures Continues(w, KidPos(kids, m, pos), Yield(kids[m]))
    ensures KidPos(kids, m + 1, pos) == KidPos(kids, m, pos) + |Yield(kids[m])| <= pos + |YieldAll(kids)|
    ensures var rest := YieldAll(kids[m + 1..]);
            Tok(w, KidPos(kids, m + 1, pos)) == if rest == [] then Tok(w, pos + |YieldAll(kids)|) else rest[0]
  {
    hide Continues, Yield, YieldAll, Tok;
    var before, rest := YieldAll(kids[..m]), YieldAll(kids[m + 1..]);
    SplitYield(kids, m);
    ContinuesSplit(w, pos, before, Yield(kids[m]) + rest);
    ContinuesSplit(w, pos + |before|, Yield(kids[m]), rest);
  }

  lemma SplitYield(kids: seq<Tree>, m: nat)
    requires m < |kids|
    ensures YieldAll(kids) == YieldAll(kids[..m]) + (Yield(kids[m]) + YieldAll(kids[m + 1..]))
    ensures YieldAll(kids[..m + 1]) == YieldAll(kids[..m]) + Yield(kids[m])
  {
    hide Yield, YieldAll;
    assert kids == kids[..m] + kids[m..];
    YieldAllConcat(kids[..m], kids[m..]);
    YieldAllTail(kids, m);
    assert kids[..m + 1] == kids[..m] + [kids[m]];
    YieldAppend(kids[..m], kids[m]);
  }

  /** A node about to be read: rule r with these kids, from the top of the stack along the states p, for goto i
      whose Follow set has the token after the node; and there is hope after it. */
  ghost predicate NodeAt(S: Setting, r: nat, kids: seq<Tree>, stack: seq<int>, p: seq<nat>, pos: nat, u: nat, i: nat)
    requires Sized(S.T) && WellFormed(S.G) && |stack| > 0
  {
    && r > 2 && KidsOk(S.G, r, kids) && RuleFrom(S.G, S.A, S.M, i, r, p) && p[0] == stack[|stack| - 1]
    && IsGoto(S.A, stack[|stack| - 1], S.G.rlhs[r], u) && Continues(S.w, pos, YieldAll(kids))
    && S.Expected(stack, S.G.rlhs[r], i, pos + |YieldAll(kids)|)
    && S.HopeAfter(stack, S.G.rlhs[r], u, pos + |YieldAll(kids)|)
  }

  /** A subtree can be read: if there is hope after its root, there is hope before it. */
  lemma {:induction false} TreeHope(S: Setting, t: Tree, stack: seq<int>, pos: nat, u: nat, i: nat)
    requires S.Ok() && Sized(S.T) && WellFormed(S.G) && |stack| > 0 && TreeOk(S.G, t)
    requires IsGoto(S.A, stack[|stack| - 1], Root(S.G, t), u) && Continues(S.w, pos, Yield(t))
    requires t.Node? ==> S.Expected(stack, Root(S.G, t), i, pos + |Yield(t)|)
    requires S.HopeAfter(stack, Root(S.G, t), u, pos + |Yield(t)|)
    ensures S.Hope(stack, pos)
    decreases t, 1, 0
  {
    hide *;
    match t
    case Leaf(a) => LeafHope(S, a, stack, pos, u);
    case Node(r, kids) =>
      var p := NodeStart(S, r, kids, stack, pos, u, i);
      KidsHope(S, r, kids, stack, p, pos, u, i, 0);
      StackStart(stack, p, kids, pos);
  }

  lemma StackStart(stack: seq<int>, p: seq<nat>, kids: seq<Tree>, pos: nat)
    requires |p| > 0
    ensures stack + p[1..0 + 1] == stack && KidPos(kids, 0, pos) == pos
  {
    assert kids[..0] == [];
  }

  lemma NodeStart(S: Setting, r: nat, kids: seq<Tree>, stack: seq<int>, pos: nat, u: nat, i: nat) returns (p: seq<nat>)
    requires S.Ok() && Sized(S.T) && WellFormed(S.G) && |stack| > 0 && TreeOk(S.G, Node(r, kids))
    requires IsGoto(S.A, stack[|stack| - 1], Root(S.G, Node(r, kids)), u) && Continues(S.w, pos, Yield(Node(r, kids)))
    requires S.Expected(stack, Root(S.G, Node(r, kids)), i, pos + |Yield(Node(r, kids))|)
    requires S.HopeAfter(stack, Root(S.G, Node(r, kids)), u, pos + |Yield(Node(r, kids))|)
    ensures |p| == |kids| + 1 && NodeAt(S, r, kids, stack, p, pos, u, i)
  {
    hide *;
    Parts(S);
    NodeBody(S.G, r, kids);
    NodeMeans(S.G, r, kids);
    GotoFrom(S.A, stack[|stack| - 1], S.G.rlhs[r], u);
    LeftSide(S.G, S.A, stack[|stack| - 1], S.G.rlhs[r], u, r);
    var s: nat := stack[|stack| - 1];
    p := TrackFrom(S.G, S.A, s, u, r, |Body(S.G, r)|);
    TrackEnd(S.G, S.A, p, r);
    NodeIntro(S, r, kids, stack, p, pos, u, i);
  }

  lemma NodeMeans(G: Grammar, r: nat, kids: seq<Tree>)
    requires G.IsRule(r)
    ensures Yield(Node(r, kids)) == YieldAll(kids) && r < |G.rlhs| && Root(G, Node(r, kids)) == G.rlhs[r]
  {}

  lemma GotoFrom(A: Automaton, s: int, x: int, u: int)
    requires IsGoto(A, s, x, u)
    ensures s >= 0
  {}

  lemma NodeIntro(S: Setting, r: nat, kids: seq<Tree>, stack: seq<int>, p: seq<nat>, pos: nat, u: nat, i: nat)
    requires Sized(S.T) && WellFormed(S.G) && |stack| > 0 && S.G.IsRule(r) && r > 2 && |kids| == |Body(S.G, r)|
    requires KidsOk(S.G, r, kids) && Walk(S.A, p, Body(S.G, r)) && p[0] == stack[|stack| - 1]
    requires IsGoto(S.A, stack[|stack| - 1], S.G.rlhs[r], u) && Continues(S.w, pos, YieldAll(kids))
    requires S.Expected(stack, S.G.rlhs[r], i, pos + |YieldAll(kids)|)
    requires S.HopeAfter(stack, S.G.rlhs[r], u, pos + |YieldAll(kids)|)
    ensures |p| == |kids| + 1 && NodeAt(S, r, kids, stack, p, pos, u, i)
  {
    hide TreeOk, WellFormed, Sized, Body, YieldAll, IsGoto, Continues;
  }

  lemma {:induction false} KidsHope(S: Setting, r: nat, kids: seq<Tree>, stack: seq<int>, p: seq<nat>, pos: nat, u: nat, i: nat, m: nat)
    requires S.Ok() && Sized(S.T) && WellFormed(S.G) && |stack| > 0 && |p| == |kids| + 1 && m <= |kids|
    requires NodeAt(S, r, kids, stack, p, pos, u, i)
    ensures S.Hope(stack + p[1..m + 1], KidPos(kids, m, pos))
    decreases Node(r, kids), 0, |kids| - m
  {
    hide *;
    if m == |kids| {
      NodeEnd(S, r, kids, stack, p, pos, u, i);
    } else {
      KidsHope(S, r, kids, stack, p, pos, u, i, m + 1);
      var k := KidReady(S, r, kids, stack, p, pos, u, i, m);
      TreeHope(S, kids[m], stack + p[1..m + 1], KidPos(kids, m, pos), p[m + 1], k);
    }
  }

  /** With the whole right-hand side on the stack, the reduction is offered. */
  lemma NodeEnd(S: Setting, r: nat, kids: seq<Tree>, stack: seq<int>, p: seq<nat>, pos: nat, u: nat, i: nat)
    requires S.Ok() && Sized(S.T) && WellFormed(S.G) && |stack| > 0 && |p| == |kids| + 1
    requires NodeAt(S, r, kids, stack, p, pos, u, i)
    ensures S.Hope(stack + p[1..|kids| + 1], KidPos(kids, |kids|, pos))
  {
    hide *;
    Parts(S);
    NodeParts(S, r, kids, stack, p, pos, u, i);
    var n, end := |kids|, pos + |YieldAll(kids)|;
    KidsEnd(kids, pos);
    var c := stack + p[1..n + 1];
    assert c[|c| - 1] == p[n];
    TokOk(S, r, kids, stack, p, pos, u, i);
    OffersHere(S, p[n], r, i, p, end);
    ReducesTo(S, stack, p[1..n + 1], r, u, end);
    AtTop(c, end);
    ReduceHope(S.T, S.inp, Config(c, end), r - 2);
    HopeMeans(S, c, end);
  }

  lemma AtTop(c: seq<int>, pos: nat)
    requires |c| > 0
    ensures Top(Config(c, pos)) == c[|c| - 1]
  {}

  lemma HopeMeans(S: Setting, c: seq<int>, pos: nat)
    requires Sized(S.T)
    ensures S.Hope(c, pos) <==> !Hopeless(S.T, S.inp, Config(c, pos))
  {}

  lemma KidsEnd(kids: seq<Tree>, pos: nat)
    ensures KidPos(kids, |kids|, pos) == pos + |YieldAll(kids)|
  {
    assert kids[..|kids|] == kids;
  }

  lemma TokOk(S: Setting, r: nat, kids: seq<Tree>, stack: seq<int>, p: seq<nat>, pos: nat, u: nat, i: nat)
    requires S.Ok() && Sized(S.T) && WellFormed(S.G) && |stack| > 0 && |p| == |kids| + 1
    requires NodeAt(S, r, kids, stack, p, pos, u, i)
    ensures Tok(S.w, pos + |YieldAll(kids)|) < S.G.ntokens
  {}

  /** The next kid is a token to be shifted, or a nonterminal whose goto expects what comes after it. */
  lemma KidReady(S: Setting, r: nat, kids: seq<Tree>, stack: seq<int>, p: seq<nat>, pos: nat, u: nat, i: nat, m: nat) returns (k: nat)
    requires S.Ok() && Sized(S.T) && WellFormed(S.G) && |stack| > 0 && |p| == |kids| + 1 && m < |kids|
    requires NodeAt(S, r, kids, stack, p, pos, u, i) && S.Hope(stack + p[1..m + 2], KidPos(kids, m + 1, pos))
    ensures var c := stack + p[1..m + 1]; var pos' := KidPos(kids, m, pos);
      && TreeOk(S.G, kids[m]) && IsGoto(S.A, c[|c| - 1], Root(S.G, kids[m]), p[m + 1]) && Continues(S.w, pos', Yield(kids[m]))
      && (kids[m].Node? ==> S.Expected(c, Root(S.G, kids[m]), k, pos' + |Yield(kids[m])|))
      && S.HopeAfter(c, Root(S.G, kids[m]), p[m + 1], pos' + |Yield(kids[m])|)
  {
    hide *;
    Parts(S);
    NodeParts(S, r, kids, stack, p, pos, u, i);
    KidYields(kids, m, S.w, pos);
    KidParts(S.G, S.A, S.M, i, r, kids, p, m);
    var c := stack + p[1..m + 1];
    assert c[|c| - 1] == p[m] && c + [p[m + 1]] == stack + p[1..m + 2];
    HopeIntro(S, c, Root(S.G, kids[m]), p[m + 1], KidPos(kids, m + 1, pos));
    k := 0;
    if kids[m].Node? {
      KidSymbol(S.G, r, kids, m);
      k := NumberOf(S.G, S.A, S.M, p[m], Body(S.G, r)[m], p[m + 1]);
      TrackPrefix(S.G, S.A, u, r, p, m + 1);
      KidFollows(S, r, kids, p, pos, i, m, k);
      ExpectedIntro(S, c, Root(S.G, kids[m]), k, KidPos(kids, m + 1, pos));
    }
  }

  lemma HopeIntro(S: Setting, c: seq<int>, x: int, u: int, pos: nat)
    requires Sized(S.T) && |c| > 0 && S.Hope(c + [u], pos)
    ensures S.HopeAfter(c, x, u, pos)
  {}

  lemma ExpectedIntro(S: Setting, c: seq<int>, x: int, k: nat, pos: nat)
    requires |c| > 0 && Numbered(S.M, k) && k < |S.f| && S.M.from[k] == c[|c| - 1] && SymbolOf(S.A, S.M, k) == x && Tok(S.w, pos) in S.f[k]
    ensures S.Expected(c, x, k, pos)
  {}

  lemma NodeParts(S: Setting, r: nat, kids: seq<Tree>, stack: seq<int>, p: seq<nat>, pos: nat, u: nat, i: nat)
    requires Sized(S.T) && WellFormed(S.G) && |stack| > 0 && |p| == |kids| + 1 && NodeAt(S, r, kids, stack, p, pos, u, i)
    ensures r > 2 && KidsOk(S.G, r, kids) && |Body(S.G, r)| == |kids| && RuleFrom(S.G, S.A, S.M, i, r, p) && S.G.IsRule(r)
    ensures p[0] == stack[|stack| - 1] && Walk(S.A, p, Body(S.G, r)) && r < |S.G.rlhs|
    ensures IsGoto(S.A, stack[|stack| - 1], S.G.rlhs[r], u) && Continues(S.w, pos, YieldAll(kids))
    ensures S.HopeAfter(stack, S.G.rlhs[r], u, pos + |YieldAll(kids)|)
    ensures i < |S.f| && Tok(S.w, pos + |YieldAll(kids)|) in S.f[i] && pos + |YieldAll(kids)| <= |S.w|
  {}

  lemma KidParts(G: Grammar, A: Automaton, M: GotoMap, i: nat, r: nat, kids: seq<Tree>, p: seq<nat>, m: nat)
    requires WellFormed(G) && KidsOk(G, r, kids) && RuleFrom(G, A, M, i, r, p) && m < |kids| == |Body(G, r)| && |p| == |kids| + 1
    ensures TreeOk(G, kids[m]) && Root(G, kids[m]) == Body(G, r)[m] && IsGoto(A, p[m], Body(G, r)[m], p[m + 1])
  {}

  lemma KidFollows(S: Setting, r: nat, kids: seq<Tree>, p: seq<nat>, pos: nat, i: nat, m: nat, k: nat)
    requires S.Ok() && Sized(S.T) && WellFormed(S.G) && |p| == |kids| + 1 && m < |kids| == |Body(S.G, r)| && r > 2
    requires KidsOk(S.G, r, kids) && RuleFrom(S.G, S.A, S.M, i, r, p) && Continues(S.w, pos, YieldAll(kids))
    requires i < |S.f| && Tok(S.w, pos + |YieldAll(kids)|) in S.f[i] && IsNonterminal(S.G, Body(S.G, r)[m])
    requires Numbered(S.M, k) && S.M.from[k] == p[m] && S.M.to[k] == p[m + 1]
    requires WellFormed(S.G) && KernelsOk(S.G, S.A) && OnTrack(S.G, S.A, p[..m + 2], r, m + 1)
    ensures k < |S.f| && Tok(S.w, KidPos(kids, m + 1, pos)) in S.f[k]
  {
    hide *;
    Parts(S);
    NumberedBound(S.M, k);
    KidYields(kids, m, S.w, pos);
    FollowsInRule(S.G, S.A, S.M, S.rd, S.f, i, r, kids, p, m, k, Tok(S.w, pos + |YieldAll(kids)|));
  }

  lemma NumberedBound(M: GotoMap, k: nat)
    requires Numbered(M, k)
    ensures k < Count(M)
  {}

  lemma KidSymbol(G: Grammar, r: nat, kids: seq<Tree>, m: nat)
    requires WellFormed(G) && KidsOk(G, r, kids) && m < |kids| && kids[m].Node?
    ensures IsNonterminal(G, Body(G, r)[m])
  {
    assert TreeOk(G, kids[m]) && Root(G, kids[m]) == Body(G, r)[m];
    RuleBounds(G, kids[m].rule);
  }

  lemma LeafHope(S: Setting, a: nat, stack: seq<int>, pos: nat, u: nat)
    requires S.Ok() && Sized(S.T) && WellFormed(S.G) && |stack| > 0 && TreeOk(S.G, Leaf(a))
    requires IsGoto(S.A, stack[|stack| - 1], Root(S.G, Leaf(a)), u) && Continues(S.w, pos, Yield(Leaf(a)))
    requires S.HopeAfter(stack, Root(S.G, Leaf(a)), u, pos + |Yield(Leaf(a))|)
    ensures S.Hope(stack, pos)
  {
    Parts(S);
    assert S.w[pos..pos + 1][0] == S.w[pos];
    assert Token(S.inp, pos) == S.val[Tok(S.w, pos)];
    assert OffersShift(S.T, stack[|stack| - 1], S.val[a], u);
    hide IsLR0, WellFormed, Encodes, OffersAll, OffersShift;
    ShiftHope(S.T, S.inp, Config(stack, pos), u);
  }

  // ----- Main results -----

  lemma {:induction false} YieldTokens(G: Grammar, t: Tree)
    requires WellFormed(G) && TreeOk(G, t)
    ensures AllTokens(G, Yield(t))
    decreases t, 1, 0
  {
    match t
    case Leaf(_) =>
    case Node(r, kids) =>
      YieldAllTokens(G, r, kids, |kids|);
      assert kids[..|kids|] == kids;
  }

  ghost predicate AllTokens(G: Grammar, w: seq<nat>) { forall k :: 0 <= k < |w| ==> 0 < w[k] < G.ntokens }

  lemma {:induction false} YieldAllTokens(G: Grammar, r: nat, kids: seq<Tree>, m: nat)
    requires WellFormed(G) && TreeOk(G, Node(r, kids)) && m <= |kids|
    ensures AllTokens(G, YieldAll(kids[..m]))
    decreases Node(r, kids), 0, m
  {
    if m > 0 {
      YieldTokens(G, kids[m - 1]);
      YieldAllTokens(G, r, kids, m - 1);
      YieldAppend(kids[..m - 1], kids[m - 1]);
      assert kids[..m] == kids[..m - 1] + [kids[m - 1]];
    }
  }

  /** The driver sees exactly the tokens of the sentence, then end markers. */
  lemma SeesSentence(G: Grammar, val: seq<int>, inp: seq<int>, w: seq<nat>)
    requires WellFormed(G) && ValuesOk(G, val) && AllTokens(G, w) && Reads(val, inp, |w|, w) && Token(inp, |w|) == 0
    ensures forall k: nat :: k <= |w| ==> Tok(w, k) < |val| && Token(inp, k) == val[Tok(w, k)]
  {
    forall k: nat | k <= |w| ensures Tok(w, k) < |val| && Token(inp, k) == val[Tok(w, k)] {
      if k < |w| { assert inp[..|w|][k] == Values(val, w)[k]; }
    }
  }

  /** Every sentence of the grammar can be accepted: the lookaheads block no derivation. */
  lemma SentenceCanBeAccepted(T: Tables, G: Grammar, A: Automaton, val: seq<int>, M: GotoMap, f: Sets, inp: seq<int>, pos: nat)
    requires Encodes(T, G, A, val) && GotosExact(G, A, M) && FollowSets(G, A, M, f) && OffersAll(T, G, A, M, f, val)
    requires Derivable(G, val, inp, pos) && Token(inp, pos) == 0
    ensures exists n: nat :: CanAccept(T, inp, Start().cfg, n)
  {
    var t :| TreeOk(G, t) && Root(G, t) == G.Goal() && Reads(val, inp, pos, Yield(t));
    hide CanAccept, FollowSets, OffersAll, IsLR0;
    var w := Yield(t);
    ReadsLength(val, inp, pos, w);
    YieldTokens(G, t);
    SeesSentence(G, val, inp, w);
    var rd := FollowsAreUp(G, A, M, f);
    var S := Setting(T, G, A, val, M, rd, f, inp, w);
    StartHope(S, t);
  }

  lemma ReadsLength(val: seq<int>, inp: seq<int>, pos: nat, w: seq<nat>)
    requires Reads(val, inp, pos, w)
    ensures |w| == pos
  {}

  lemma StartHope(S: Setting, t: Tree)
    requires S.Ok() && WellFormed(S.G) && TreeOk(S.G, t) && Root(S.G, t) == S.G.Goal() && Yield(t) == S.w
    ensures Sized(S.T) && !Hopeless(S.T, S.inp, Start().cfg)
  {
    Parts(S);
    var u := GoalFollow(S.G, S.A, S.M, S.rd, S.f);
    assert S.w[0..0 + |S.w|] == S.w;
    hide IsLR0, WellFormed, TreeOk, GotosExact, Yield, Hopeless, Encodes, OffersAll, ReadsUp, FollowsUp, IsGoto;
    assert Continues(S.w, 0, Yield(t));
    assert S.Expected([0], S.G.Goal(), 0, |S.w|);
    TreeHope(S, t, [0], 0, u, 0);
  }

  /** Soundness and completeness together: for every input and however long it runs, the driver accepts only
      input whose tokens before the end are derivable from the goal, and reports a syntax error only when no
      such derivation exists. */
  lemma DriverDecides(T: Tables, G: Grammar, A: Automaton, val: seq<int>, M: GotoMap, f: Sets, inp: seq<int>, n: nat)
    requires Encodes(T, G, A, val) && GotosExact(G, A, M) && FollowSets(G, A, M, f) && OffersAll(T, G, A, M, f, val)
    ensures Run(T, inp, Start(), n).Accepted? ==> exists pos: nat :: Derivable(G, val, inp, pos) && Token(inp, pos) == 0
    ensures Run(T, inp, Start(), n).SyntaxError? ==> forall pos: nat :: !(Derivable(G, val, inp, pos) && Token(inp, pos) == 0)
  {
    assert Sized(T) && WellFormed(G);
    hide *;
    DriverIsSound(T, G, A, val, inp, n);
    SearchIsExact(T, inp, n);
    forall pos: nat | Derivable(G, val, inp, pos) && Token(inp, pos) == 0
      ensures exists k: nat :: CanAccept(T, inp, Start().cfg, k)
    {
      SentenceCanBeAccepted(T, G, A, val, M, f, inp, pos);
    }
  }
}
