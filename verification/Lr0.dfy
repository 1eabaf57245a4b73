/** The LR(0) generator: work list, hash-consed states, shifts and reductions (lr0.c). */
module Lr0 {
  import opened Grammars
  import opened Items
  import opened Pigeonhole
  import opened Automata
  import opened Closures
  import opened Sorting
  import opened Lr0Spec

  /** kernels[x]: the items of the closure moved past x, in order. */
  ghost predicate MovedPast(G: Grammar, it: seq<int>, n: nat, kernels: seq<seq<int>>)
    requires n <= |it|
  {
    |kernels| == G.nsyms && forall x: nat :: x < G.nsyms ==> Increasing(kernels[x]) && forall j :: j in kernels[x] <==> Moved(G, it, n, x, j)
  }

  ghost predicate Moved(G: Grammar, it: seq<int>, n: nat, x: nat, j: int)
    requires n <= |it|
  {
    x > 0 && exists i :: 0 <= i < n && it[i] == j - 1 && IsItem(G, it[i]) && G.ritem[it[i]] == x
  }

  /** The symbols that have been met. */
  ghost predicate Met(kernels: seq<seq<int>>, symbols: seq<nat>) { Distinct(symbols) && MetSymbols(kernels, symbols) }

  ghost predicate MetSymbols(kernels: seq<seq<int>>, symbols: seq<nat>) {
    forall x: nat :: x in symbols <==> x < |kernels| && kernels[x] != []
  }

  /** One item of the closure, moved past its symbol. */
  lemma MoveOne(G: Grammar, it: seq<int>, n: nat, kernels: seq<seq<int>>, symbols: seq<nat>, kernels': seq<seq<int>>, symbols': seq<nat>)
    requires n < |it| && Increasing(it) && IsItem(G, it[n]) && MovedPast(G, it, n, kernels) && Met(kernels, symbols)
    requires G.ritem[it[n]] < G.nsyms
    requires G.ritem[it[n]] > 0 ==> kernels' == kernels[G.ritem[it[n]] := kernels[G.ritem[it[n]]] + [it[n] + 1]]
    requires G.ritem[it[n]] > 0 ==> symbols' == if kernels[G.ritem[it[n]]] == [] then symbols + [G.ritem[it[n]]] else symbols
    requires G.ritem[it[n]] <= 0 ==> kernels' == kernels && symbols' == symbols
    ensures MovedPast(G, it, n + 1, kernels') && Met(kernels', symbols')
  {
    var x := G.ritem[it[n]];
    forall y: nat | y < G.nsyms
      ensures Increasing(kernels'[y]) && forall j :: j in kernels'[y] <==> Moved(G, it, n + 1, y, j)
    {
      forall j ensures Moved(G, it, n + 1, y, j) <==> Moved(G, it, n, y, j) || (y > 0 && y == x && j == it[n] + 1) {
        MovedMore(G, it, n, y, j);
      }
      if y == x && x > 0 {
        forall j | j in kernels[y] ensures j < it[n] + 1 { assert Moved(G, it, n, y, j); }
        AppendLarger(kernels[y], it[n] + 1);
      }
    }
    MeetOne(kernels, symbols, kernels', symbols', x, it[n] + 1);
  }

  lemma MovedMore(G: Grammar, it: seq<int>, n: nat, y: nat, j: int)
    requires n < |it| && IsItem(G, it[n])
    ensures Moved(G, it, n + 1, y, j) <==> Moved(G, it, n, y, j) || (y > 0 && y == G.ritem[it[n]] && j == it[n] + 1)
  {}

  lemma AppendLarger(s: seq<int>, x: int)
    requires Increasing(s) && forall j :: j in s ==> j < x
    ensures Increasing(s + [x])
  {
    forall i | 0 <= i < |s| ensures s[i] < x { assert s[i] in s; }
  }

  lemma MeetOne(kernels: seq<seq<int>>, symbols: seq<nat>, kernels': seq<seq<int>>, symbols': seq<nat>, x: int, j: int)
    requires Met(kernels, symbols) && x < |kernels|
    requires x > 0 ==> kernels' == kernels[x := kernels[x] + [j]] && symbols' == if kernels[x] == [] then symbols + [x] else symbols
    requires x <= 0 ==> kernels' == kernels && symbols' == symbols
    ensures Met(kernels', symbols')
  {}

  /** new_itemsets */
  method NewItemsets(G: Grammar, itemset: array<int>, itemsetend: nat, kernelOf: array<seq<int>>, shiftSymbol: array<nat>) returns (nshifts: nat)
    requires WellFormed(G) && itemsetend <= itemset.Length && Nucleus(G, itemset[..itemsetend])
    requires kernelOf.Length == G.nsyms && shiftSymbol.Length >= G.nsyms
    requires (shiftSymbol as object) != itemset && (kernelOf as object) != itemset && (kernelOf as object) != shiftSymbol
    modifies kernelOf, shiftSymbol
    ensures nshifts <= shiftSymbol.Length
    ensures MovedPast(G, itemset[..itemsetend], itemsetend, kernelOf[..]) && Met(kernelOf[..], shiftSymbol[..nshifts])
  {
    var i := 0;
    while i < G.nsyms
      invariant i <= G.nsyms && forall x :: 0 <= x < i ==> kernelOf[x] == []
    {
      kernelOf[i] := [];
      i := i + 1;
    }
    nshifts := 0;
    ghost var it := itemset[..itemsetend];
    var isp := 0;
    assert shiftSymbol[..0] == [];
    while isp < itemsetend
      invariant isp <= itemsetend && nshifts <= shiftSymbol.Length && itemset[..itemsetend] == it
      invariant MovedPast(G, it, isp, kernelOf[..]) && Met(kernelOf[..], shiftSymbol[..nshifts])
    {
      var item := itemset[isp];
      assert item == it[isp];
      NucleusSymbol(G, it, isp);
      hide WellFormed, MovedPast, Met;
      var symbol := G.ritem[item];
      ghost var ks, ss := kernelOf[..], shiftSymbol[..nshifts];
      if symbol > 0 {
        if kernelOf[symbol] == [] {
          RoomForSymbol(ks, ss, symbol);
          shiftSymbol[nshifts] := symbol;
          nshifts := nshifts + 1;
          assert shiftSymbol[..nshifts] == ss + [symbol];
        }
        kernelOf[symbol] := kernelOf[symbol] + [item + 1];
        assert kernelOf[..] == ks[symbol := ks[symbol] + [item + 1]];
      }
      MoveOne(G, it, isp, ks, ss, kernelOf[..], shiftSymbol[..nshifts]);
      isp := isp + 1;
    }
  }

  /** There is room for one more symbol in a table of all of them. */
  lemma RoomForSymbol(kernels: seq<seq<int>>, symbols: seq<nat>, x: nat)
    requires Met(kernels, symbols) && x < |kernels| && kernels[x] == []
    ensures |symbols| < |kernels|
  {
    var s := symbols + [x];
    assert Distinct(s);
    forall p | 0 <= p < |s| ensures 0 <= s[p] < |kernels| {
      assert p < |symbols| ==> symbols[p] in symbols;
    }
    DistinctBound(s, |kernels|);
  }

  /** The state table, its hash chains, and the tables of shifts and reductions, padded with empty entries
      for states that have not been looked at. */
  class Builder {
    const G: Grammar
    const closer: Closer
    const stateSet: array<int>
    const kernelOf: array<seq<int>>
    const shiftSymbol: array<nat>
    var kernel: seq<seq<int>>
    var acc: seq<nat>
    var link: seq<int>
    var shifts: seq<seq<nat>>
    var reds: seq<seq<int>>
    var thisState: nat

    ghost predicate Parts()
      reads this, closer, closer.firstDerives
    {
      && WellFormed(G) && closer.Valid() && closer.G == G
      && stateSet.Length == |G.ritem| && kernelOf.Length == G.nsyms && shiftSymbol.Length == G.nsyms
      && (stateSet as object) != closer.itemset && (stateSet as object) != closer.ruleset
      && (stateSet as object) != kernelOf && (stateSet as object) != shiftSymbol
      && (kernelOf as object) != closer.itemset && (kernelOf as object) != closer.ruleset && (kernelOf as object) != shiftSymbol
      && (shiftSymbol as object) != closer.itemset && (shiftSymbol as object) != closer.ruleset
    }

    ghost predicate Tables()
      reads this, stateSet
    {
      Table(G, kernel, acc) && Chained(kernel, link, stateSet[..]) && |shifts| == |reds| == |kernel|
    }

    function View(): Automaton
      reads this
    {
      Automaton(kernel, acc, shifts, reds)
    }

    /** allocate_storage, set_first_derives and initialize_states: state 0 holds the initial items of $accept.
        It is entered in no chain. */
    constructor (g: Grammar)
      requires WellFormed(g)
      ensures Parts() && Tables() && G == g && thisState == 0 && fresh(closer) && fresh(stateSet) && fresh(kernelOf)
      ensures fresh(shiftSymbol) && fresh(closer.itemset) && fresh(closer.ruleset) && |kernel| == 1
      ensures fresh(closer.firstDerives)
    {
      G := g;
      closer := new Closer(g);
      stateSet := new int[|g.ritem|](_ => -1);
      kernelOf := new seq<int>[g.nsyms](_ => []);
      shiftSymbol := new nat[g.nsyms];
      var startDerives := Derives(g, g.ntokens, |g.rlhs|);
      StartRule(g, |g.rlhs|);
      kernel := [[g.rrhs[startDerives[0]]]];
      acc := [0];
      link := [-1];
      shifts := [[]];
      reds := [[]];
      thisState := 0;
    }

    /** new_state */
    method NewState(k: seq<int>, symbol: nat) returns (number: nat)
      modifies this
      ensures number == old(|kernel|) && thisState == old(thisState)
      ensures kernel == old(kernel) + [k] && acc == old(acc) + [symbol] && link == old(link) + [-1]
      ensures |shifts| == old(|shifts|) + 1 && |reds| == old(|reds|) + 1 && Extends(old(View()), View())
    {
      number := |kernel|;
      kernel := kernel + [k];
      acc := acc + [symbol];
      link := link + [-1];
      shifts := shifts + [[]];
      reds := reds + [[]];
    }

    /** A kernel that is in no chain becomes a new state, at the end of its chain or at the start of a new one. */
    method AddState(k: seq<int>, symbol: nat, sp: int) returns (number: nat)
      requires Tables() && Nucleus(G, k) && EnteredBy(G, k, symbol) && |k| > 0 && 0 <= k[0] < stateSet.Length
      requires sp == -1 ==> stateSet[k[0]] == -1
      requires sp == -1 || (HasKey(kernel, sp, k[0]) && |link| == |kernel| && link[sp] == -1)
      requires NoneIn(kernel, 1, |kernel|, k)
      modifies this, stateSet
      ensures Tables() && thisState == old(thisState) && number == old(|kernel|) && 1 <= number && |kernel| == number + 1
      ensures kernel[number] == k && acc[number] == symbol && Extends(old(View()), View())
      ensures Unseen(G, kernel) < old(Unseen(G, kernel))
    {
      TablesMeans(this);
      ghost var ks, ac, ln, heads := kernel, acc, link, stateSet[..];
      TableSizes(G, ks, ac);
      assert |ln| == |ks|;
      hide *;
      TableGrows(G, ks, ac, k, symbol);
      NewKernel(G, ks, ac, k, symbol);
      UnseenFalls(G, ks, ac, k);
      number := NewState(k, symbol);
      LinkState(ks, ln, heads, k, sp);
      TablesIntro(this);
    }

    method LinkState(ghost ks: seq<seq<int>>, ghost ln: seq<int>, ghost heads: seq<int>, k: seq<int>, sp: int)
      requires Chained(ks, ln, heads) && |ks| >= 1 && |k| > 0 && 0 <= k[0] < |heads| && |ln| == |ks|
      requires heads == stateSet[..] && link == ln + [-1] && kernel == ks + [k]
      requires sp == -1 ==> heads[k[0]] == -1
      requires sp == -1 || (HasKey(ks, sp, k[0]) && ln[sp] == -1)
      modifies `link, stateSet
      ensures Chained(kernel, link, stateSet[..])
    {
      hide Chained, NextWith;
      var number := |kernel| - 1;
      if sp == -1 {
        stateSet[k[0]] := number;
      } else {
        link := link[sp := number];
      }
      ChainGrows(ks, ln, heads, k, sp, link, stateSet[..]);
    }

    /** The search of get_state: the state with this kernel, or the end of its chain (-1 if there is no chain). */
    method Search(k: seq<int>) returns (found: bool, sp: int)
      requires Chained(kernel, link, stateSet[..]) && |k| > 0 && 0 <= k[0] < stateSet.Length
      ensures found ==> 1 <= sp < |kernel| && kernel[sp] == k
      ensures !found ==> NoneIn(kernel, 1, |kernel|, k)
      ensures !found ==> if sp == -1 then stateSet[k[0]] == -1 else HasKey(kernel, sp, k[0]) && |link| == |kernel| && link[sp] == -1
    {
      hide Chained, NoneIn;
      ghost var heads := stateSet[..];
      ChainHead(kernel, link, heads, k);
      sp := stateSet[k[0]];
      if sp == -1 { return false, -1; }
      while kernel[sp] != k
        invariant HasKey(kernel, sp, k[0]) && NoneIn(kernel, 1, sp, k)
        decreases |kernel| - sp
      {
        ChainStep(kernel, link, heads, sp, k);
        NoneJoin(kernel, sp, if link[sp] == -1 then |kernel| else link[sp], k);
        if link[sp] == -1 { return false, sp; }
        sp := link[sp];
      }
      found := true;
    }

    /** get_state: look the kernel up in its chain, and add it at the end if it is not there. */
    method GetState(symbol: nat) returns (number: nat)
      requires Parts() && Tables() && symbol < G.nsyms
      requires Nucleus(G, kernelOf[symbol]) && EnteredBy(G, kernelOf[symbol], symbol)
      modifies this, stateSet
      ensures Tables() && thisState == old(thisState) && 1 <= number < |kernel|
      ensures kernel[number] == kernelOf[symbol] && acc[number] == symbol
      ensures Extends(old(View()), View())
      ensures kernel == old(kernel) || (Unseen(G, kernel) < old(Unseen(G, kernel)) && |kernel| == number + 1 == old(|kernel|) + 1)
    {
      var k := kernelOf[symbol];
      assert IsItem(G, k[0]);
      hide WellFormed, Nucleus, EnteredBy, Table, Chained, Unseen, NoneIn;
      var found, sp := Search(k);
      if found {
        number := sp;
        SameSymbol(G, kernel, acc, sp, symbol);
      } else {
        number := AddState(k, symbol, sp);
      }
    }

    /** append_states: the symbols are sorted, and each gets its state. */
    method AppendStates(nshifts: nat, ghost it: seq<int>) returns (shiftset: seq<nat>)
      requires Parts() && Tables() && nshifts <= shiftSymbol.Length && Nucleus(G, it)
      requires MovedPast(G, it, |it|, kernelOf[..]) && Met(kernelOf[..], shiftSymbol[..nshifts])
      modifies this, stateSet, shiftSymbol
      ensures Parts() && Tables() && thisState == old(thisState) && Extends(old(View()), View())
      ensures ShiftsOk(G, it, shiftset, kernel, acc) && AmongNew(old(|kernel|), |kernel|, shiftset)
      ensures kernel == old(kernel) || Unseen(G, kernel) < old(Unseen(G, kernel))
    {
      hide *;
      TablesMeans(this);
      PartsMeans(this);
      ghost var kernels, A := kernelOf[..], View();
      InsertionSort(shiftSymbol, nshifts);
      ghost var symbols := shiftSymbol[..nshifts];
      KeepSymbols(old(shiftSymbol[..]), shiftSymbol[..], nshifts, kernels);
      PartsIntro(this);
      shiftset := [];
      var i := 0;
      ViewMeans(this);
      NoShifts(kernels, symbols, View());
      while i < nshifts
        invariant i <= nshifts && Parts() && Tables() && thisState == old(thisState)
        invariant kernelOf[..] == kernels && shiftSymbol[..nshifts] == symbols
        invariant Extends(A, View()) && Shifting(kernels, symbols, i, shiftset, kernel, acc)
        invariant kernel == old(kernel) || Unseen(G, kernel) < old(Unseen(G, kernel))
        invariant AmongNew(old(|kernel|), |kernel|, shiftset)
        modifies this, stateSet
      {
        assert shiftSymbol[i] == symbols[i];
        ghost var n', A' := |kernel|, View();
        var t := AppendOne(shiftSymbol[i], it, kernels, symbols, i, shiftset);
        ExtendsTrans(A, A', View());
        AmongMore(old(|kernel|), n', |kernel|, shiftset, t);
        shiftset := shiftset + [t];
        i := i + 1;
      }
      ShiftsFromSymbols(G, it, kernels, symbols, shiftset, kernel, acc);
    }

    method AppendOne(symbol: nat, ghost it: seq<int>, ghost kernels: seq<seq<int>>, ghost symbols: seq<nat>, ghost i: nat, ghost ss: seq<nat>)
      returns (t: nat)
      requires Parts() && Tables() && kernelOf[..] == kernels && i < |symbols| && symbol == symbols[i]
      requires Nucleus(G, it) && MovedPast(G, it, |it|, kernels) && MetSymbols(kernels, symbols)
      requires Shifting(kernels, symbols, i, ss, kernel, acc)
      modifies this, stateSet
      ensures Parts() && Tables() && thisState == old(thisState) && Extends(old(View()), View())
      ensures Shifting(kernels, symbols, i + 1, ss + [t], kernel, acc)
      ensures kernel == old(kernel) || (Unseen(G, kernel) < old(Unseen(G, kernel)) && |kernel| == t + 1 == old(|kernel|) + 1)
    {
      PartsMeans(this);
      TablesMeans(this);
      MetSymbol(kernels, symbols, i);
      hide *;
      MovedIsKernel(G, it, kernels, symbol);
      assert kernelOf[symbol] == kernels[symbol];
      ghost var A' := View();
      t := GetState(symbol);
      PartsIntro(this);
      TablesMeans(this);
      ShiftingMore(kernels, symbols, i, ss, A', View(), t);
    }

    /** The work list: every state, in the order of creation, gets its shifts and reductions. An empty entry
        stands for a state without a record. */
    method GenerateStates()
      requires Parts() && Tables() && thisState == 0 && |kernel| == 1
      modifies this, stateSet, kernelOf, shiftSymbol, closer, closer.itemset, closer.ruleset
      ensures Parts() && IsLR0(G, View()) && AllReached(View()) && RedsOrdered(View())
    {
      TablesMeans(this);
      NoneDone(G, View());
      hide *;
      while thisState < |kernel|
        invariant Parts() && Tables() && thisState <= |kernel|
        invariant AllDone(G, View(), thisState)
        invariant Reached(View(), |kernel|, thisState)
        decreases Unseen(G, kernel), |kernel| - thisState
      {
        NextState();
      }
      TablesMeans(this);
      DoneIsLR0(G, View(), thisState);
    }

    /** One state of the work list. */
    method NextState()
      requires Parts() && Tables() && thisState < |kernel|
      requires AllDone(G, View(), thisState) && Reached(View(), |kernel|, thisState)
      modifies this, stateSet, kernelOf, shiftSymbol, closer, closer.itemset, closer.ruleset
      ensures Parts() && Tables() && thisState == old(thisState) + 1 <= |kernel|
      ensures AllDone(G, View(), thisState) && Reached(View(), |kernel|, thisState)
      ensures kernel == old(kernel) || Unseen(G, kernel) < old(Unseen(G, kernel))
    {
      hide *;
      TablesMeans(this);
      ViewMeans(this);
      ghost var A := View();
      ghost var it;
      var nshifts, redset;
      it, nshifts, redset := Expand();
      var shiftset := AppendStates(nshifts, it);
      TablesMeans(this);
      ViewMeans(this);
      ghost var A' := View();
      Record(redset, shiftset, A);
      ViewMeans(this);
      DoneMore(G, A, A', View(), it, thisState - 1, shiftset, redset);
      ReachedMore(A, A', View(), thisState - 1, shiftset);
    }

    /** closure, save_reductions and new_itemsets for this_state. */
    method Expand() returns (ghost it: seq<int>, nshifts: nat, redset: seq<int>)
      requires Parts() && Tables() && thisState < |kernel|
      modifies kernelOf, shiftSymbol, closer, closer.itemset, closer.ruleset
      ensures Parts() && Tables() && nshifts <= shiftSymbol.Length
      ensures ListsClosure(G, kernel[thisState], it) && Nucleus(G, it) && RedsOk(G, it, redset, |it|)
      ensures MovedPast(G, it, |it|, kernelOf[..]) && Met(kernelOf[..], shiftSymbol[..nshifts])
    {
      TablesMeans(this);
      var k := kernel[thisState];
      KernelIsNucleus(G, kernel, acc, thisState);
      hide *;
      PartsMeans(this);
      closer.Close(k);
      it := closer.itemset[..closer.itemsetend];
      ClosureIsNucleus(G, k, it);
      PartsIntro(this);
      redset := SaveReductions(G, closer.itemset, closer.itemsetend);
      nshifts := NewItemsets(G, closer.itemset, closer.itemsetend, kernelOf, shiftSymbol);
    }

    /** The records of save_reductions and save_shifts; on to the next state. */
    method Record(redset: seq<int>, shiftset: seq<nat>, ghost A: Automaton)
      requires Parts() && Tables() && Extends(A, View()) && thisState < |A.kernel| == |A.acc| == |A.shifts| == |A.reds|
      modifies this
      ensures Parts() && Tables() && thisState == old(thisState) + 1 && kernel == old(kernel)
      ensures old(thisState) < |A.kernel| <= |kernel| == |acc| == |shifts| == |reds|
      ensures View() == Automaton(old(kernel), old(acc), old(shifts)[old(thisState) := shiftset], old(reds)[old(thisState) := redset])
    {
      TablesMeans(this);
      PartsMeans(this);
      OldState(A, View(), thisState);
      ExtendsSize(A, View());
      hide *;
      SaveRecords(redset, shiftset);
      PartsIntro(this);
      TablesIntro(this);
    }

    /** The records of save_reductions and save_shifts; this_state = this_state->next. */
    method SaveRecords(redset: seq<int>, shiftset: seq<nat>)
      requires thisState < |reds| == |shifts|
      modifies this
      ensures kernel == old(kernel) && acc == old(acc) && link == old(link) && thisState == old(thisState) + 1
      ensures reds == old(reds)[old(thisState) := redset] && shifts == old(shifts)[old(thisState) := shiftset]
    {
      reds := reds[thisState := redset];
      shifts := shifts[thisState := shiftset];
      thisState := thisState + 1;
    }
  }

  /** generate_states */
  method Generate(G: Grammar) returns (A: Automaton)
    requires WellFormed(G)
    ensures IsLR0(G, A) && AllReached(A) && RedsOrdered(A)
  {
    hide *;
    var b := new Builder(G);
    b.GenerateStates();
    A := b.View();
  }

  /** The states from m to n are all among these targets. */
  ghost predicate AmongNew(m: nat, n: nat, ss: seq<nat>) { forall t: nat :: m <= t < n ==> t in ss }

  lemma AmongMore(m: nat, n: nat, n': nat, ss: seq<nat>, t: nat)
    requires AmongNew(m, n, ss) && (n' == n || (n' == n + 1 && t == n))
    ensures AmongNew(m, n', ss + [t])
  {}

  /** Each of the first n states but state 0 is the target of a shift of a state before k, which is before it. */
  ghost predicate Reached(A: Automaton, n: nat, k: nat) {
    k <= |A.shifts| && forall t: nat :: 1 <= t < n ==> IsTarget(A, t, k)
  }

  ghost predicate IsTarget(A: Automaton, t: nat, k: nat)
    requires k <= |A.shifts|
  {
    exists s: nat :: s < k && s < t && t in A.shifts[s]
  }

  /** No state is there without need. */
  ghost predicate AllReached(A: Automaton) { Reached(A, |A.kernel|, |A.shifts|) }

  lemma ReachedMore(A: Automaton, A': Automaton, B: Automaton, n: nat, ss: seq<nat>)
    requires Reached(A, |A.kernel|, n) && Extends(A, A') && n < |A.shifts| == |A.kernel| <= |A'.shifts| == |A'.kernel| == |B.kernel|
    requires B.shifts == A'.shifts[n := ss] && AmongNew(|A.kernel|, |A'.kernel|, ss)
    ensures Reached(B, |B.kernel|, n + 1)
  {
    var n' := n + 1;
    forall t: nat | 1 <= t < |B.kernel| ensures IsTarget(B, t, n') {
      if t < |A.kernel| {
        assert IsTarget(A, t, n);
        var s: nat :| s < n && s < t && t in A.shifts[s];
        assert A'.shifts[..|A.shifts|][s] == A.shifts[s];
        assert t in B.shifts[s];
      } else {
        assert t in B.shifts[n];
      }
    }
  }

  /** The rules that are complete in these items. */
  ghost predicate RedsOk(G: Grammar, it: seq<int>, rs: seq<int>, n: nat) {
    n <= |it| && Increasing(rs) && forall r :: r in rs <==> exists i :: 0 <= i < n && IsItem(G, it[i]) && G.ritem[it[i]] < 0 && r == -G.ritem[it[i]]
  }

  /** Completed items are met in the order of their rules. */
  lemma LargestRule(G: Grammar, it: seq<int>, rs: seq<int>, n: nat)
    requires WellFormed(G) && Nucleus(G, it) && RedsOk(G, it, rs, n) && n < |it| && G.ritem[it[n]] < 0
    ensures Increasing(rs + [-G.ritem[it[n]]])
  {
    forall r | r in rs ensures r < -G.ritem[it[n]] {
      var i :| 0 <= i < n && IsItem(G, it[i]) && G.ritem[it[i]] < 0 && r == -G.ritem[it[i]];
      CompletedOrder(G, it[i], it[n]);
    }
    hide WellFormed;
    AppendLarger(rs, -G.ritem[it[n]]);
  }

  lemma CompletedOrder(G: Grammar, i: int, j: int)
    requires WellFormed(G) && IsItem(G, i) && IsItem(G, j) && i < j && G.ritem[i] < 0 && G.ritem[j] < 0
    ensures -G.ritem[i] < -G.ritem[j]
  {
    var q := FindRule(G, i, |G.rlhs|);
    var r := FindRule(G, j, |G.rlhs|);
    EndOfRule(G, i, q);
    EndOfRule(G, j, r);
    if r < q { RulesOrdered(G, r + 1, q + 1); }
  }

  /** save_reductions */
  method SaveReductions(G: Grammar, itemset: array<int>, itemsetend: nat) returns (redset: seq<int>)
    requires WellFormed(G) && itemsetend <= itemset.Length && Nucleus(G, itemset[..itemsetend])
    ensures RedsOk(G, itemset[..itemsetend], redset, itemsetend)
  {
    ghost var it := itemset[..itemsetend];
    redset := [];
    var isp := 0;
    while isp < itemsetend
      invariant isp <= itemsetend && RedsOk(G, it, redset, isp)
    {
      assert itemset[isp] == it[isp];
      var item := G.ritem[itemset[isp]];
      if item < 0 {
        LargestRule(G, it, redset, isp);
        redset := redset + [-item];
      }
      isp := isp + 1;
    }
  }

  /** `it` lists the closure of the kernel `k`. */
  ghost predicate ListsClosure(G: Grammar, k: seq<int>, it: seq<int>) {
    && WellFormed(G) && Nucleus(G, it) && AreItems(G, Elems(k))
    && forall i :: i in it <==> InClosure(G, Elems(k), i)
  }

  /** State s has its shifts and reductions. */
  ghost predicate Done(G: Grammar, A: Automaton, s: nat) {
    && s < |A.kernel| == |A.shifts| == |A.reds|
    && exists it :: ListsClosure(G, A.kernel[s], it) && ShiftsOk(G, it, A.shifts[s], A.kernel, A.acc) && RedsOk(G, it, A.reds[s], |it|)
  }

  ghost predicate AllDone(G: Grammar, A: Automaton, n: nat) { forall s: nat :: s < n ==> Done(G, A, s) }

  lemma NoneDone(G: Grammar, A: Automaton)
    requires |A.kernel| == 1
    ensures AllDone(G, A, 0) && Reached(A, |A.kernel|, 0)
  {}

  lemma KernelIsNucleus(G: Grammar, kernel: seq<seq<int>>, acc: seq<nat>, s: nat)
    requires Table(G, kernel, acc) && s < |kernel|
    ensures Nucleus(G, kernel[s])
  {}

  lemma ClosureIsNucleus(G: Grammar, k: seq<int>, it: seq<int>)
    requires WellFormed(G) && Nucleus(G, k) && AreItems(G, Elems(k)) && Increasing(it)
    requires forall i :: i in it <==> InClosure(G, Elems(k), i)
    ensures ListsClosure(G, k, it) && Nucleus(G, it)
  {
    forall j | 0 <= j < |it| ensures IsItem(G, it[j]) {
      assert it[j] in it;
      if it[j] !in Elems(k) {
        var r: nat :| BroughtIn(G, Elems(k), r) && it[j] == G.rrhs[r];
        RuleBounds(G, r);
      }
    }
  }

  lemma PartsMeans(b: Builder)
    requires b.Parts()
    ensures WellFormed(b.G) && b.closer.Valid() && b.closer.G == b.G && b.kernelOf.Length == b.G.nsyms == b.shiftSymbol.Length
    ensures b.closer.itemsetend <= b.closer.itemset.Length
    ensures (b.stateSet as object) != b.closer.itemset && (b.stateSet as object) != b.closer.ruleset
    ensures (b.stateSet as object) != b.kernelOf && (b.stateSet as object) != b.shiftSymbol
    ensures (b.kernelOf as object) != b.closer.itemset && (b.kernelOf as object) != b.closer.ruleset && (b.kernelOf as object) != b.shiftSymbol
    ensures (b.shiftSymbol as object) != b.closer.itemset && (b.shiftSymbol as object) != b.closer.ruleset
    ensures b.stateSet.Length == |b.G.ritem|
  {}

  lemma PartsIntro(b: Builder)
    requires WellFormed(b.G) && b.closer.Valid() && b.closer.G == b.G && b.kernelOf.Length == b.G.nsyms == b.shiftSymbol.Length
    requires (b.stateSet as object) != b.closer.itemset && (b.stateSet as object) != b.closer.ruleset
    requires (b.stateSet as object) != b.kernelOf && (b.stateSet as object) != b.shiftSymbol
    requires (b.kernelOf as object) != b.closer.itemset && (b.kernelOf as object) != b.closer.ruleset && (b.kernelOf as object) != b.shiftSymbol
    requires (b.shiftSymbol as object) != b.closer.itemset && (b.shiftSymbol as object) != b.closer.ruleset
    requires b.stateSet.Length == |b.G.ritem|
    ensures b.Parts()
  {}

  /** A state that is done stays done when the table grows; the current one becomes done. */
  lemma DoneMore(G: Grammar, A: Automaton, A': Automaton, B: Automaton, it: seq<int>, n: nat, ss: seq<nat>, rs: seq<int>)
    requires AllDone(G, A, n)
    requires Extends(A, A') && n < |A.kernel| <= |A'.kernel| == |A'.acc| == |A'.shifts| == |A'.reds|
    requires |A.shifts| == |A.reds| == |A.kernel| == |A.acc|
    requires B == Automaton(A'.kernel, A'.acc, A'.shifts[n := ss], A'.reds[n := rs])
    requires ListsClosure(G, A.kernel[n], it) && ShiftsOk(G, it, ss, A'.kernel, A'.acc) && RedsOk(G, it, rs, |it|)
    ensures AllDone(G, B, n + 1)
  {
    forall s: nat | s < n + 1 ensures Done(G, B, s) {
      OldState(A, A', s);
      if s == n {
        assert B.kernel[s] == A.kernel[s];
      } else {
        assert Done(G, A, s);
        DoneKeeps(G, A, B, s);
      }
    }
  }

  lemma ExtendsSize(A: Automaton, A': Automaton)
    requires Extends(A, A')
    ensures |A.kernel| <= |A'.kernel|
  {}

  lemma OldState(A: Automaton, A': Automaton, s: nat)
    requires Extends(A, A') && s < |A.kernel| && s < |A.acc| && s < |A.shifts| && s < |A.reds|
    ensures s < |A'.kernel| && A'.kernel[s] == A.kernel[s] && s < |A'.acc| && A'.acc[s] == A.acc[s]
    ensures s < |A'.shifts| && A'.shifts[s] == A.shifts[s] && s < |A'.reds| && A'.reds[s] == A.reds[s]
  {
    assert A'.kernel[..|A.kernel|][s] == A.kernel[s];
    assert A'.acc[..|A.acc|][s] == A.acc[s];
    assert A'.shifts[..|A.shifts|][s] == A.shifts[s];
    assert A'.reds[..|A.reds|][s] == A.reds[s];
  }

  lemma DoneKeeps(G: Grammar, A: Automaton, B: Automaton, s: nat)
    requires Done(G, A, s) && |B.kernel| == |B.shifts| == |B.reds| == |B.acc| >= |A.kernel| == |A.acc|
    requires B.kernel[s] == A.kernel[s] && B.shifts[s] == A.shifts[s] && B.reds[s] == A.reds[s]
    requires forall t: nat :: t < |A.kernel| ==> B.kernel[t] == A.kernel[t] && B.acc[t] == A.acc[t]
    ensures Done(G, B, s)
  {
    var it :| ListsClosure(G, A.kernel[s], it) && ShiftsOk(G, it, A.shifts[s], A.kernel, A.acc) && RedsOk(G, it, A.reds[s], |it|);
    hide ListsClosure, RedsOk, GotoOf;
    assert ShiftsOk(G, it, B.shifts[s], B.kernel, B.acc);
  }

  /** When all states are done, the table is the canonical collection. */
  lemma DoneIsLR0(G: Grammar, A: Automaton, n: nat)
    requires Table(G, A.kernel, A.acc) && |A.shifts| == |A.reds| == |A.kernel|
    requires AllDone(G, A, n) && Reached(A, |A.kernel|, n) && n == |A.kernel|
    ensures IsLR0(G, A) && AllReached(A) && RedsOrdered(A)
  {
    TableItems(G, A);
    forall s | 0 <= s < A.NStates() ensures StateOk(G, A, s) {
      DoneStateOk(G, A, s);
    }
    forall s: nat | s < |A.reds| ensures Increasing(A.reds[s]) {
      assert Done(G, A, s);
    }
  }

  lemma DoneStateOk(G: Grammar, A: Automaton, s: nat)
    requires KernelsOk(G, A) && s < A.NStates() && Kernel(A, s) == Elems(A.kernel[s]) && Done(G, A, s)
    ensures StateOk(G, A, s)
  {
    hide WellFormed, AreItems, InClosure, GotoOf, GotoOk, RedsOk, ShiftsOk, HasGoto;
    var it :| ListsClosure(G, A.kernel[s], it) && ShiftsOk(G, it, A.shifts[s], A.kernel, A.acc) && RedsOk(G, it, A.reds[s], |it|);
    forall i ensures InState(G, A, s, i) <==> i in it {}
    hide InState, KernelsOk, ListsClosure;
    GotosOk(G, A, s, it);
    forall i | IsItem(G, i) && InState(G, A, s, i) && G.ritem[i] > 0 ensures HasGoto(G, A, s, G.ritem[i]) {
      NeededGoto(G, A, s, it, i);
    }
    forall r ensures r in A.reds[s] <==> exists i :: IsItem(G, i) && InState(G, A, s, i) && G.ritem[i] < 0 && r == -G.ritem[i] {
      RedIsComplete(G, A, s, it, r);
    }
  }

  lemma GotosOk(G: Grammar, A: Automaton, s: nat, it: seq<int>)
    requires KernelsOk(G, A) && s < A.NStates() && (forall i :: InState(G, A, s, i) <==> i in it)
    requires ShiftsOk(G, it, A.shifts[s], A.kernel, A.acc)
    ensures forall k :: 0 <= k < |A.shifts[s]| ==> GotoOk(G, A, s, A.shifts[s][k])
    ensures forall k, m :: 0 <= k < m < |A.shifts[s]| ==> A.acc[A.shifts[s][k]] < A.acc[A.shifts[s][m]]
  {
    var ss := A.shifts[s];
    forall k: nat | k < |ss| ensures GotoOk(G, A, s, ss[k]) {
      assert GotoOf(G, it, A.kernel[ss[k]], A.acc[ss[k]]);
      hide InState, KernelsOk, GotoOf, GotoOk;
      ShiftIsGoto(G, A, s, it, ss[k]);
    }
  }

  lemma NeededGoto(G: Grammar, A: Automaton, s: nat, it: seq<int>, i: int)
    requires KernelsOk(G, A) && s < A.NStates() && IsItem(G, i) && i in it && G.ritem[i] > 0
    requires ShiftsOk(G, it, A.shifts[s], A.kernel, A.acc)
    ensures HasGoto(G, A, s, G.ritem[i])
  {
    var ss := A.shifts[s];
    var p :| 0 <= p < |it| && it[p] == i;
    var k: nat :| k < |ss| && A.acc[ss[k]] == G.ritem[it[p]];
    hide InState, KernelsOk, GotoOf;
    assert ss[k] < A.NStates();
  }

  lemma RedIsComplete(G: Grammar, A: Automaton, s: nat, it: seq<int>, r: int)
    requires KernelsOk(G, A) && s < A.NStates() && (forall i :: InState(G, A, s, i) <==> i in it) && RedsOk(G, it, A.reds[s], |it|)
    ensures r in A.reds[s] <==> exists i :: IsItem(G, i) && InState(G, A, s, i) && G.ritem[i] < 0 && r == -G.ritem[i]
  {
    hide InState, WellFormed;
    if r in A.reds[s] {
      var i :| 0 <= i < |it| && IsItem(G, it[i]) && G.ritem[it[i]] < 0 && r == -G.ritem[it[i]];
      assert it[i] in it;
    }
    if i :| IsItem(G, i) && InState(G, A, s, i) && G.ritem[i] < 0 && r == -G.ritem[i] {
      var p :| 0 <= p < |it| && it[p] == i;
      assert IsItem(G, it[p]);
    }
  }

  lemma ShiftIsGoto(G: Grammar, A: Automaton, s: nat, it: seq<int>, t: nat)
    requires KernelsOk(G, A) && s < A.NStates() && (forall i :: InState(G, A, s, i) <==> i in it)
    requires 1 <= t < |A.kernel| && A.acc[t] > 0 && A.kernel[t] != [] && GotoOf(G, it, A.kernel[t], A.acc[t])
    ensures GotoOk(G, A, s, t)
  {
    var x := A.acc[t];
    hide KernelsOk, InState;
    forall j ensures j in A.kernel[t] <==> Shifted(G, A, s, x, j) {
      assert Moved(G, it, |it|, x, j) ==> j - 1 in it;
      if Shifted(G, A, s, x, j) {
        var i :| 0 <= i < |it| && it[i] == j - 1;
        assert Moved(G, it, |it|, x, j);
      }
    }
    assert Shifted(G, A, s, x, A.kernel[t][0]);
  }

  /** What has been moved past x is a kernel entered by x. */
  lemma MovedIsKernel(G: Grammar, it: seq<int>, kernels: seq<seq<int>>, x: nat)
    requires WellFormed(G) && MovedPast(G, it, |it|, kernels) && x < G.nsyms && kernels[x] != []
    ensures Nucleus(G, kernels[x]) && EnteredBy(G, kernels[x], x)
  {
    var k := kernels[x];
    forall i | 0 <= i < |k| ensures IsItem(G, k[i]) && IsItem(G, k[i] - 1) && G.ritem[k[i] - 1] == x {
      assert k[i] in k;
      assert Moved(G, it, |it|, x, k[i]);
      NextItem(G, k[i] - 1);
    }
    assert k[0] in k;
    assert Moved(G, it, |it|, x, k[0]);
  }

  /** The first n sorted symbols have their states. */
  ghost predicate Shifting(kernels: seq<seq<int>>, symbols: seq<nat>, n: nat, ss: seq<nat>, kernel: seq<seq<int>>, acc: seq<nat>) {
    && |ss| == n <= |symbols| && |kernel| == |acc|
    && forall k: nat :: k < n ==> symbols[k] < |kernels| && 1 <= ss[k] < |kernel| && kernel[ss[k]] == kernels[symbols[k]] && acc[ss[k]] == symbols[k]
  }

  lemma ShiftingMore(kernels: seq<seq<int>>, symbols: seq<nat>, n: nat, ss: seq<nat>, A: Automaton, A': Automaton, t: nat)
    requires Shifting(kernels, symbols, n, ss, A.kernel, A.acc) && Extends(A, A') && |A'.kernel| == |A'.acc|
    requires n < |symbols| && symbols[n] < |kernels| && 1 <= t < |A'.kernel| && A'.kernel[t] == kernels[symbols[n]] && A'.acc[t] == symbols[n]
    ensures Shifting(kernels, symbols, n + 1, ss + [t], A'.kernel, A'.acc)
  {
    forall k: nat | k < n ensures A'.kernel[ss[k]] == A.kernel[ss[k]] && A'.acc[ss[k]] == A.acc[ss[k]] {
      assert A'.kernel[..|A.kernel|][ss[k]] == A.kernel[ss[k]];
      assert A'.acc[..|A.acc|][ss[k]] == A.acc[ss[k]];
    }
  }

  lemma ExtendsTrans(A: Automaton, A': Automaton, A'': Automaton)
    requires Extends(A, A') && Extends(A', A'')
    ensures Extends(A, A'')
  {
    assert A''.kernel[..|A.kernel|] == A''.kernel[..|A'.kernel|][..|A.kernel|];
    assert A''.acc[..|A.acc|] == A''.acc[..|A'.acc|][..|A.acc|];
    assert A''.shifts[..|A.shifts|] == A''.shifts[..|A'.shifts|][..|A.shifts|];
    assert A''.reds[..|A.reds|] == A''.reds[..|A'.reds|][..|A.reds|];
  }

  /** The shifts of a state are exactly its gotos, ordered by symbol. */
  ghost predicate ShiftsOk(G: Grammar, it: seq<int>, ss: seq<nat>, kernel: seq<seq<int>>, acc: seq<nat>) {
    && |kernel| == |acc|
    && (forall k: nat :: k < |ss| ==> 1 <= ss[k] < |kernel| && acc[ss[k]] > 0 && kernel[ss[k]] != [] && GotoOf(G, it, kernel[ss[k]], acc[ss[k]]))
    && (forall k: nat, m: nat :: k < m < |ss| ==> acc[ss[k]] < acc[ss[m]])
    && (forall i :: 0 <= i < |it| && IsItem(G, it[i]) && G.ritem[it[i]] > 0 ==> exists k: nat :: k < |ss| && acc[ss[k]] == G.ritem[it[i]])
  }

  ghost predicate GotoOf(G: Grammar, it: seq<int>, k: seq<int>, x: nat) {
    forall j :: j in k <==> Moved(G, it, |it|, x, j)
  }

  lemma ShiftsFromSymbols(G: Grammar, it: seq<int>, kernels: seq<seq<int>>, symbols: seq<nat>, ss: seq<nat>, kernel: seq<seq<int>>, acc: seq<nat>)
    requires WellFormed(G) && Nucleus(G, it) && MovedPast(G, it, |it|, kernels) && StrictlySorted(symbols)
    requires MetSymbols(kernels, symbols)
    requires Shifting(kernels, symbols, |symbols|, ss, kernel, acc)
    ensures ShiftsOk(G, it, ss, kernel, acc)
  {
    forall k: nat | k < |ss| ensures acc[ss[k]] > 0 && kernel[ss[k]] != [] && GotoOf(G, it, kernel[ss[k]], acc[ss[k]]) {
      assert symbols[k] in symbols;
      MovedIsKernel(G, it, kernels, symbols[k]);
    }
    forall i | 0 <= i < |it| && IsItem(G, it[i]) && G.ritem[it[i]] > 0
      ensures exists k: nat :: k < |ss| && acc[ss[k]] == G.ritem[it[i]]
    {
      NucleusSymbol(G, it, i);
      var x: nat := G.ritem[it[i]];
      assert Moved(G, it, |it|, x, it[i] + 1);
      assert it[i] + 1 in kernels[x];
      assert x in symbols;
      var k: nat :| k < |symbols| && symbols[k] == x;
      assert acc[ss[k]] == x;
    }
  }

  lemma TablesMeans(b: Builder)
    requires b.Tables()
    ensures Table(b.G, b.kernel, b.acc) && Chained(b.kernel, b.link, b.stateSet[..])
    ensures |b.shifts| == |b.reds| == |b.kernel| == |b.acc| == |b.link| >= 1
  {}

  lemma ViewMeans(b: Builder)
    ensures b.View() == Automaton(b.kernel, b.acc, b.shifts, b.reds)
  {}

  lemma TablesIntro(b: Builder)
    requires Table(b.G, b.kernel, b.acc) && Chained(b.kernel, b.link, b.stateSet[..])
    requires |b.shifts| == |b.reds| == |b.kernel|
    ensures b.Tables()
  {}

  /** Rule 2 is the only one of the start symbol. */
  lemma {:induction false} StartRule(G: Grammar, r: nat)
    requires WellFormed(G) && r <= |G.rlhs|
    ensures Derives(G, G.ntokens, r) == if r <= 2 then [] else [2]
    decreases r
  {
    if r > 0 {
      StartRule(G, r - 1);
      if r > 2 { assert RuleOk(G, r - 1); }
    }
  }

  lemma KeepSymbols(a: seq<nat>, b: seq<nat>, n: nat, kernels: seq<seq<int>>)
    requires n <= |a| == |b| && multiset(a) == multiset(b) && a[n..] == b[n..] && Met(kernels, a[..n]) && Sorted(b[..n])
    ensures StrictlySorted(b[..n]) && MetSymbols(kernels, b[..n])
  {
    SameTail(a, b, n);
    SortedDistinct(a[..n], b[..n]);
  }

  lemma SameTail(a: seq<nat>, b: seq<nat>, n: nat)
    requires n <= |a| == |b| && multiset(a) == multiset(b) && a[n..] == b[n..]
    ensures multiset(a[..n]) == multiset(b[..n])
  {
    BagSplit(a, n);
    BagSplit(b, n);
  }

  lemma BagSplit(a: seq<nat>, n: nat)
    requires n <= |a|
    ensures multiset(a[..n]) == multiset(a) - multiset(a[n..])
  {
    assert a == a[..n] + a[n..];
  }

  lemma MetSymbol(kernels: seq<seq<int>>, symbols: seq<nat>, i: nat)
    requires MetSymbols(kernels, symbols) && i < |symbols|
    ensures symbols[i] < |kernels| && kernels[symbols[i]] != []
  {
    assert symbols[i] in symbols;
  }

  lemma NoShifts(kernels: seq<seq<int>>, symbols: seq<nat>, A: Automaton)
    requires |A.kernel| == |A.acc|
    ensures Shifting(kernels, symbols, 0, [], A.kernel, A.acc) && Extends(A, A) && AmongNew(|A.kernel|, |A.kernel|, [])
  {}

  lemma NewKernel(G: Grammar, kernel: seq<seq<int>>, acc: seq<nat>, k: seq<int>, x: nat)
    requires Table(G, kernel, acc) && EnteredBy(G, k, x) && NoneIn(kernel, 1, |kernel|, k)
    ensures NoneIn(kernel, 0, |kernel|, k)
  {
    assert IsItem(G, k[0] - 1);
  }

  /** Old states stay as they are, new ones have no shifts or reductions yet. */
  ghost predicate Extends(A: Automaton, A': Automaton) {
    && |A.kernel| <= |A'.kernel| && A'.kernel[..|A.kernel|] == A.kernel
    && |A.acc| <= |A'.acc| && A'.acc[..|A.acc|] == A.acc
    && |A.shifts| <= |A'.shifts| && A'.shifts[..|A.shifts|] == A.shifts
    && |A.reds| <= |A'.reds| && A'.reds[..|A.reds|] == A.reds
  }
}
