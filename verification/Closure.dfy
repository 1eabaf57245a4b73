/** Item set closure by bit matrices (closure.c). */
module Closures {
  import opened Grammars
  import opened Relation
  import opened Items
  import opened BitRows
  import opened Warshall

  /** Bit n of row i is set, nothing else changes. */
  method SetBit(m: array2<bv32>, i: nat, n: nat)
    requires i < m.Length0 && n / 32 < m.Length1
    modifies m
    ensures forall x: nat, y: nat :: x < m.Length0 && y / 32 < m.Length1 ==>
      (Cell(m, x, y) <==> old(Cell(m, x, y)) || (x == i && y == n))
  {
    m[i, n / 32] := Or(m[i, n / 32], Mask(n % 32));
    hide Or, Test, Mask, BitOf;
    forall x: nat, y: nat | x < m.Length0 && y / 32 < m.Length1
      ensures Cell(m, x, y) <==> old(Cell(m, x, y)) || (x == i && y == n)
    {
      if x == i && y / 32 == n / 32 {
        OrBits(old(m[i, n / 32]), Mask(n % 32), y % 32);
        MaskBits(n % 32, y % 32);
      }
    }
  }

  /** The rules of nonterminal `lhs` below r, in order: derives[lhs] (lr0.c, set_derives). */
  function Derives(G: Grammar, lhs: nat, r: nat): (s: seq<nat>)
    requires r <= |G.rlhs|
    ensures forall q: nat :: q in s <==> q < r && q < |G.rlhs| && G.rlhs[q] == lhs
  {
    if r == 0 then [] else
      var s := Derives(G, lhs, r - 1);
      if G.rlhs[r - 1] == lhs then s + [r - 1] else s
  }

  /** Rules 0 and 1 are fillers: their left side is the end marker. */
  lemma DerivesRules(G: Grammar, v: nat, q: nat)
    requires WellFormed(G) && q in Derives(G, v + G.ntokens, |G.rlhs|)
    ensures G.IsRule(q) && G.rlhs[q] == v + G.ntokens && 1 <= G.rrhs[q] < |G.ritem|
    ensures G.ritem[G.rrhs[q]] < G.nsyms
  {
    assert q != 0 && q != 1;
    RuleBounds(G, q);
  }

  lemma DerivesAll(G: Grammar, v: nat, q: nat)
    requires WellFormed(G) && v < NVars(G)
    ensures q in Derives(G, v + G.ntokens, |G.rlhs|) <==> G.IsRule(q) && G.rlhs[q] == v + G.ntokens
  {
    if q in Derives(G, v + G.ntokens, |G.rlhs|) { DerivesRules(G, v, q); }
  }

  /** A rule among the first n of row v calls for y. */
  ghost predicate StepIn(G: Grammar, s: seq<nat>, n: nat, v: nat, y: nat)
    requires n <= |s|
  {
    exists k :: 0 <= k < n && LeftStep(G, s[k], v, y)
  }

  /** One row of the leftmost-nonterminal matrix. */
  method LeftRow(m: array2<bv32>, G: Grammar, v: nat)
    requires WellFormed(G) && Square(m, NVars(G)) && v < NVars(G)
    requires forall y: nat :: y < NVars(G) ==> y / 32 < m.Length1 && !Cell(m, v, y)
    modifies m
    ensures forall y: nat :: y < NVars(G) ==> y / 32 < m.Length1 && (Cell(m, v, y) <==> Edge(LeftRel(G), v, y))
    ensures forall x: nat, y: nat :: x < NVars(G) && y < NVars(G) && x != v ==>
      y / 32 < m.Length1 && (Cell(m, x, y) <==> old(Cell(m, x, y)))
  {
    var sp := Derives(G, v + G.ntokens, |G.rlhs|);
    ghost var nv := NVars(G);
    var k := 0;
    while k < |sp|
      invariant k <= |sp|
      invariant forall y: nat :: y < nv ==> y / 32 < m.Length1 && (Cell(m, v, y) <==> StepIn(G, sp, k, v, y))
      invariant forall x: nat, y: nat :: x < nv && y < nv && x != v ==>
        y / 32 < m.Length1 && (Cell(m, x, y) <==> old(Cell(m, x, y)))
    {
      DerivesRules(G, v, sp[k]);
      hide WellFormed, LeftRel, Derives, BitOf;
      var symbol := G.ritem[G.rrhs[sp[k]]];
      if G.IsVar(symbol) {
        WordOf(symbol - G.ntokens, nv);
        SetBit(m, v, symbol - G.ntokens);
      }
      k := k + 1;
      forall y: nat | y < nv
        ensures StepIn(G, sp, k, v, y) <==> StepIn(G, sp, k - 1, v, y) || y + G.ntokens == symbol
      {
        assert y + G.ntokens == symbol <==> LeftStep(G, sp[k - 1], v, y);
      }
    }
    forall y: nat | y < nv ensures StepIn(G, sp, |sp|, v, y) <==> Edge(LeftRel(G), v, y) {
      AllSteps(G, v, y);
    }
  }

  lemma AllSteps(G: Grammar, v: nat, y: nat)
    requires WellFormed(G) && v < NVars(G)
    ensures var sp := Derives(G, v + G.ntokens, |G.rlhs|); StepIn(G, sp, |sp|, v, y) <==> Edge(LeftRel(G), v, y)
  {
    var sp := Derives(G, v + G.ntokens, |G.rlhs|);
    if Edge(LeftRel(G), v, y) {
      var q: nat :| LeftStep(G, q, v, y);
      DerivesAll(G, v, q);
      var k :| 0 <= k < |sp| && sp[k] == q;
      assert LeftStep(G, sp[k], v, y);
    }
  }

  /** set_EFF: which nonterminals can begin a string derived from which, without skipping empty ones. */
  method SetEFF(G: Grammar) returns (m: array2<bv32>)
    requires WellFormed(G)
    ensures fresh(m) && Square(m, NVars(G)) && IsClosure(m, LeftRel(G))
  {
    var n := NVars(G);
    m := new bv32[n, WordSize(n)]((_, _) => 0);
    hide WellFormed, LeftRel, BitOf, Via;
    forall x: nat, y: nat | x < n && y < n ensures y / 32 < m.Length1 && !Cell(m, x, y) {
      WordOf(y, n);
      EmptyCell(m, x, y);
    }
    var i := 0;
    while i < n
      invariant i <= n
      invariant forall x: nat, y: nat :: x < n && y < n ==>
        y / 32 < m.Length1 && (Cell(m, x, y) <==> x < i && Edge(LeftRel(G), x, y))
      modifies m
    {
      LeftRow(m, G, i);
      i := i + 1;
    }
    LeftRelValid(G);
    ClosureInput(m, G);
    ReflexiveTransitiveClosure(m, LeftRel(G));
  }

  lemma EmptyCell(m: array2<bv32>, x: nat, y: nat)
    requires x < m.Length0 && y / 32 < m.Length1 && m[x, y / 32] == 0
    ensures !Cell(m, x, y)
  {
    ZeroBits(y % 32);
  }

  lemma ClosureInput(m: array2<bv32>, G: Grammar)
    requires WellFormed(G) && Square(m, NVars(G))
    requires forall x: nat, y: nat :: x < NVars(G) && y < NVars(G) ==>
        y / 32 < m.Length1 && (Cell(m, x, y) <==> Edge(LeftRel(G), x, y))
    ensures |LeftRel(G)| == NVars(G) && Holds(m, LeftRel(G), 0, 0)
  {}

  /** Rule r is wanted when nonterminal v stands after a dot. */
  ghost predicate Wanted(G: Grammar, v: nat, r: nat)
    requires WellFormed(G)
  {
    G.IsRule(r) && G.rlhs[r] >= G.ntokens && Reach(LeftRel(G), v, G.rlhs[r] - G.ntokens)
  }

  /** first_derives: a row of rule bits per nonterminal. */
  ghost predicate FirstDerives(fd: array2<bv32>, G: Grammar)
    requires WellFormed(G)
    reads fd
  {
    && fd.Length0 == NVars(G) && fd.Length1 == WordSize(|G.rlhs|)
    && forall v: nat, r: nat :: v < NVars(G) && r / 32 < fd.Length1 ==> (Cell(fd, v, r) <==> Wanted(G, v, r))
  }

  /** Row v of first_derives after the nonterminals below j have been looked at. */
  ghost predicate PartWanted(G: Grammar, v: nat, r: nat, j: nat)
    requires WellFormed(G)
  {
    Wanted(G, v, r) && G.rlhs[r] < j + G.ntokens
  }

  lemma RuleInWords(n: nat, r: nat)
    requires r < n
    ensures r / 32 < WordSize(n)
  {}

  /** All rules of one nonterminal are added to a row. */
  method AddRules(fd: array2<bv32>, G: Grammar, v: nat, j: nat)
    requires WellFormed(G) && v < fd.Length0 && fd.Length1 == WordSize(|G.rlhs|) && j < NVars(G)
    modifies fd
    ensures forall x: nat, r: nat :: x < fd.Length0 && r / 32 < fd.Length1 ==>
      (Cell(fd, x, r) <==> old(Cell(fd, x, r)) || (x == v && G.IsRule(r) && G.rlhs[r] == j + G.ntokens))
  {
    var rp := Derives(G, j + G.ntokens, |G.rlhs|);
    var k := 0;
    while k < |rp|
      invariant k <= |rp|
      invariant forall x: nat, r: nat :: x < fd.Length0 && r / 32 < fd.Length1 ==>
        (Cell(fd, x, r) <==> old(Cell(fd, x, r)) || (x == v && r in rp[..k]))
    {
      DerivesRules(G, j, rp[k]);
      hide WellFormed, Derives, BitOf;
      RuleInWords(|G.rlhs|, rp[k]);
      SetBit(fd, v, rp[k]);
      assert rp[..k + 1] == rp[..k] + [rp[k]];
      k := k + 1;
    }
    assert rp[..k] == rp;
    forall r: nat ensures r in rp <==> G.IsRule(r) && G.rlhs[r] == j + G.ntokens { DerivesAll(G, j, r); }
  }

  /** One row of first_derives: the mask runs along the row of EFF.  After the last bit of a word the next word is
      fetched even if the row has no more; what is fetched then is not looked at. */
  method FirstRow(fd: array2<bv32>, eff: array2<bv32>, G: Grammar, v: nat)
    requires WellFormed(G) && fd != eff && v < fd.Length0 == NVars(G) && fd.Length1 == WordSize(|G.rlhs|)
    requires Square(eff, NVars(G)) && IsClosure(eff, LeftRel(G))
    requires forall r: nat :: r / 32 < fd.Length1 ==> !Cell(fd, v, r)
    modifies fd
    ensures forall x: nat, r: nat :: x < fd.Length0 && r / 32 < fd.Length1 ==>
      (Cell(fd, x, r) <==> if x == v then Wanted(G, v, r) else old(Cell(fd, x, r)))
  {
    var n := NVars(G);
    var vrow := 0;
    var cword: bv32 := if eff.Length1 > 0 then eff[v, 0] else 0;
    vrow := 1;
    var mask, j := 1 as bv32, 0;
    FirstMask();
    hide WellFormed, LeftRel, BitOf, Mask, Test, ShiftUp, Wanted;
    while j < n
      invariant j <= n && mask == Mask(j % 32) && vrow == j / 32 + 1
      invariant j / 32 < eff.Length1 ==> cword == eff[v, j / 32]
      invariant forall x: nat, r: nat :: x < fd.Length0 && r / 32 < fd.Length1 ==>
        (Cell(fd, x, r) <==> if x == v then PartWanted(G, v, r, j) else old(Cell(fd, x, r)))
    {
      WordOf(j, n);
      EffBit(eff, G, v, j, cword, mask);
      if Test(cword, mask) { AddRules(fd, G, v, j); }
      forall r: nat ensures PartWanted(G, v, r, j + 1) <==> PartWanted(G, v, r, j) || (Reach(LeftRel(G), v, j) && G.IsRule(r) && G.rlhs[r] == j + G.ntokens) {
        MoreWanted(G, v, r, j);
      }
      NextColumn(j);
      mask := ShiftUp(mask);
      if mask == 0 {
        var beyond: bv32 := *;
        cword := if vrow < eff.Length1 then eff[v, vrow] else beyond;
        vrow := vrow + 1;
        mask := 1;
      }
      j := j + 1;
    }
    forall r: nat ensures PartWanted(G, v, r, n) <==> Wanted(G, v, r) { AllWanted(G, v, r); }
  }

  lemma FirstMask()
    ensures Mask(0) == 1
  {}

  lemma EffBit(eff: array2<bv32>, G: Grammar, v: nat, j: nat, cword: bv32, mask: bv32)
    requires WellFormed(G) && Square(eff, NVars(G)) && IsClosure(eff, LeftRel(G)) && v < NVars(G) && j < NVars(G)
    requires j / 32 < eff.Length1 && cword == eff[v, j / 32] && mask == Mask(j % 32)
    ensures Test(cword, mask) <==> Reach(LeftRel(G), v, j)
  {
    hide WellFormed, Test, Mask, Reach;
    assert |LeftRel(G)| == NVars(G);
    hide LeftRel;
    assert Cell(eff, v, j) <==> Reach(LeftRel(G), v, j);
  }

  lemma MoreWanted(G: Grammar, v: nat, r: nat, j: nat)
    requires WellFormed(G)
    ensures PartWanted(G, v, r, j + 1) <==>
      PartWanted(G, v, r, j) || (Reach(LeftRel(G), v, j) && G.IsRule(r) && G.rlhs[r] == j + G.ntokens)
  {}

  lemma AllWanted(G: Grammar, v: nat, r: nat)
    requires WellFormed(G)
    ensures PartWanted(G, v, r, NVars(G)) <==> Wanted(G, v, r)
  {
    if G.IsRule(r) { RuleBounds(G, r); }
  }

  /** set_first_derives */
  method SetFirstDerives(G: Grammar) returns (fd: array2<bv32>)
    requires WellFormed(G)
    ensures fresh(fd) && FirstDerives(fd, G)
  {
    var n := NVars(G);
    var eff := SetEFF(G);
    fd := new bv32[n, WordSize(|G.rlhs|)]((_, _) => 0);
    hide WellFormed, LeftRel, BitOf, Wanted, IsClosure, Square;
    forall x: nat, r: nat | x < n && r / 32 < fd.Length1 ensures !Cell(fd, x, r) { EmptyCell(fd, x, r); }
    var i := 0;
    while i < n
      invariant i <= n && fd != eff && Square(eff, n) && IsClosure(eff, LeftRel(G))
      invariant forall x: nat, r: nat :: x < n && r / 32 < fd.Length1 ==> (Cell(fd, x, r) <==> x < i && Wanted(G, x, r))
      modifies fd
    {
      FirstRow(fd, eff, G, i);
      i := i + 1;
    }
  }

  ghost predicate Increasing(s: seq<int>) { forall i, j :: 0 <= i < j < |s| ==> s[i] < s[j] }

  function Elems(s: seq<int>): set<int> { set i | i in s }

  /** A sorted list of items. */
  ghost predicate Nucleus(G: Grammar, s: seq<int>) {
    Increasing(s) && forall i :: 0 <= i < |s| ==> IsItem(G, s[i])
  }

  lemma NucleusItems(G: Grammar, s: seq<int>)
    requires Nucleus(G, s)
    ensures AreItems(G, Elems(s))
  {}

  /** Bit r of a rule set. */
  predicate RuleBit(rs: array<bv32>, r: nat)
    requires r / 32 < rs.Length
    reads rs
  {
    BitOf(rs[r / 32], r % 32)
  }

  /** The rules brought in by the first k items of the nucleus. */
  ghost predicate FromFirst(G: Grammar, s: seq<int>, k: nat, r: nat)
    requires WellFormed(G) && k <= |s| && Nucleus(G, s)
  {
    exists i :: 0 <= i < k && G.IsVar(G.ritem[s[i]]) && Wanted(G, G.ritem[s[i]] - G.ntokens, r)
  }

  lemma FromAll(G: Grammar, s: seq<int>, r: nat)
    requires WellFormed(G) && Nucleus(G, s)
    ensures AreItems(G, Elems(s)) && (FromFirst(G, s, |s|, r) <==> BroughtIn(G, Elems(s), r))
  {
    NucleusItems(G, s);
    if BroughtIn(G, Elems(s), r) {
      RuleBounds(G, r);
      var k :| k in Elems(s) && G.IsVar(G.ritem[k]) && Reach(LeftRel(G), G.ritem[k] - G.ntokens, G.rlhs[r] - G.ntokens);
      var i :| 0 <= i < |s| && s[i] == k;
      assert Wanted(G, G.ritem[s[i]] - G.ntokens, r);
    }
    if FromFirst(G, s, |s|, r) {
      var i :| 0 <= i < |s| && G.IsVar(G.ritem[s[i]]) && Wanted(G, G.ritem[s[i]] - G.ntokens, r);
      assert s[i] in Elems(s);
    }
  }

  /** A row of first_derives is or-ed into the rule set. */
  method OrRules(rs: array<bv32>, fd: array2<bv32>, v: nat)
    requires v < fd.Length0 && fd.Length1 == rs.Length
    modifies rs
    ensures forall r: nat :: r / 32 < rs.Length ==> (RuleBit(rs, r) <==> old(RuleBit(rs, r)) || Cell(fd, v, r))
  {
    var w := 0;
    while w < rs.Length
      invariant w <= rs.Length
      invariant forall x: nat :: x < rs.Length ==> rs[x] == if x < w then Or(old(rs[x]), fd[v, x]) else old(rs[x])
    {
      rs[w] := Or(rs[w], fd[v, w]);
      w := w + 1;
    }
    hide Or, BitOf;
    forall r: nat | r / 32 < rs.Length ensures RuleBit(rs, r) <==> old(RuleBit(rs, r)) || Cell(fd, v, r) {
      OrBits(old(rs[r / 32]), fd[v, r / 32], r % 32);
    }
  }

  /** The rule set of a nucleus. */
  method CollectRules(G: Grammar, nucleus: seq<int>, fd: array2<bv32>, rs: array<bv32>)
    requires WellFormed(G) && Nucleus(G, nucleus) && FirstDerives(fd, G) && rs.Length == fd.Length1
    modifies rs
    ensures forall r: nat :: r / 32 < rs.Length ==> (RuleBit(rs, r) <==> FromFirst(G, nucleus, |nucleus|, r))
  {
    var w := 0;
    while w < rs.Length
      invariant w <= rs.Length && forall x: nat :: x < w ==> rs[x] == 0
    {
      rs[w] := 0;
      w := w + 1;
    }
    forall r: nat | r / 32 < rs.Length ensures !RuleBit(rs, r) { ZeroBits(r % 32); }
    var csp := 0;
    while csp < |nucleus|
      invariant csp <= |nucleus|
      invariant forall r: nat :: r / 32 < rs.Length ==> (RuleBit(rs, r) <==> FromFirst(G, nucleus, csp, r))
    {
      NucleusSymbol(G, nucleus, csp);
      hide WellFormed, BitOf, Wanted, LeftRel;
      var symbol := G.ritem[nucleus[csp]];
      if G.IsVar(symbol) { OrRules(rs, fd, symbol - G.ntokens); }
      csp := csp + 1;
    }
  }

  lemma NucleusSymbol(G: Grammar, s: seq<int>, k: nat)
    requires WellFormed(G) && Nucleus(G, s) && k < |s|
    ensures 1 <= s[k] < |G.ritem| && G.ritem[s[k]] < G.nsyms
  {
    var r := FindRule(G, s[k], |G.rlhs|);
    EndOfRule(G, s[k], r);
    assert RuleOk(G, r);
    assert s[k] < G.rrhs[r + 1] - 1 ==> SymbolOk(G, r, G.ritem[s[k]]);
  }

  lemma {:induction false} IncreasingRoom(s: seq<int>, k: nat)
    requires Increasing(s) && k < |s| && forall i :: 0 <= i < |s| ==> s[i] >= 1
    ensures s[k] >= k + 1
    decreases k
  {
    if k > 0 { IncreasingRoom(s, k - 1); }
  }

  /** Item i is in the output once the first `csp` nucleus items and the rules below `ruleno` are through. */
  ghost predicate Merged(G: Grammar, s: seq<int>, csp: nat, ruleno: nat, i: int)
    requires WellFormed(G) && Nucleus(G, s) && csp <= |s|
  {
    i in s[..csp] || exists r: nat :: r < ruleno && RuleItem(G, s, r, i)
  }

  ghost predicate RuleItem(G: Grammar, s: seq<int>, r: nat, i: int)
    requires WellFormed(G) && Nucleus(G, s)
  {
    FromFirst(G, s, |s|, r) && r < |G.rrhs| && i == G.rrhs[r]
  }

  /** The state of the merge: the output is sorted, below everything still to come, and holds what has been merged. */
  ghost predicate Merging(G: Grammar, s: seq<int>, out: seq<int>, csp: nat, ruleno: nat)
    requires WellFormed(G) && Nucleus(G, s)
  {
    && csp <= |s| && Increasing(out)
    && (forall i :: i in out <==> Merged(G, s, csp, ruleno, i))
    && (forall i :: 0 <= i < |out| ==> IsItem(G, out[i]))
    && (forall i, j :: 0 <= i < |out| && csp <= j < |s| ==> out[i] < s[j])
    && (forall i :: 0 <= i < |out| ==> forall r: nat :: G.IsRule(r) && r >= ruleno ==> out[i] < G.rrhs[r])
  }

  /** Copy the nucleus items below x. */
  method CopyBelow(itemset: array<int>, end: nat, nucleus: seq<int>, csp0: nat, x: int) returns (end': nat, csp: nat)
    requires csp0 <= |nucleus| && Increasing(nucleus) && end <= itemset.Length && Increasing(itemset[..end])
    requires forall i :: 0 <= i < end ==> 1 <= itemset[i] < x
    requires forall i, j :: 0 <= i < end && csp0 <= j < |nucleus| ==> itemset[i] < nucleus[j]
    requires forall j :: 0 <= j < |nucleus| ==> 1 <= nucleus[j]
    requires x <= itemset.Length
    modifies itemset
    ensures csp0 <= csp <= |nucleus| && end <= end' <= itemset.Length
    ensures itemset[..end'] == old(itemset[..end]) + nucleus[csp0..csp] && Increasing(itemset[..end'])
    ensures forall i :: 0 <= i < end' ==> 1 <= itemset[i] < x
    ensures csp < |nucleus| ==> nucleus[csp] >= x
  {
    end', csp := end, csp0;
    ghost var was := itemset[..end];
    while csp < |nucleus| && nucleus[csp] < x
      invariant csp0 <= csp <= |nucleus| && end <= end' <= itemset.Length
      invariant itemset[..end'] == was + nucleus[csp0..csp] && Increasing(itemset[..end'])
      invariant forall i :: 0 <= i < end' ==> 1 <= itemset[i] < x
      invariant forall i, j :: 0 <= i < end' && csp <= j < |nucleus| ==> itemset[i] < nucleus[j]
    {
      RoomFor(itemset[..end'], x);
      itemset[end'] := nucleus[csp];
      assert nucleus[csp0..csp + 1] == nucleus[csp0..csp] + [nucleus[csp]];
      assert itemset[..end' + 1] == itemset[..end'] + [nucleus[csp]];
      end' := end' + 1;
      csp := csp + 1;
    }
  }

  /** Copy the smaller nucleus items, then the rule's first item, and skip it in the nucleus. */
  method Emit(itemset: array<int>, end: nat, nucleus: seq<int>, csp0: nat, itemno: int) returns (end': nat, csp: nat)
    requires csp0 <= |nucleus| && Increasing(nucleus) && end <= itemset.Length && Increasing(itemset[..end])
    requires forall i :: 0 <= i < end ==> 1 <= itemset[i] < itemno
    requires forall i, j :: 0 <= i < end && csp0 <= j < |nucleus| ==> itemset[i] < nucleus[j]
    requires forall j :: 0 <= j < |nucleus| ==> 1 <= nucleus[j]
    requires 1 <= itemno < itemset.Length
    modifies itemset
    ensures csp0 <= csp <= |nucleus| && end < end' <= itemset.Length && Increasing(itemset[..end'])
    ensures forall i :: i in itemset[..end'] <==> i in old(itemset[..end]) || i in nucleus[csp0..csp] || i == itemno
    ensures forall i :: 0 <= i < end' ==> 1 <= itemset[i] <= itemno
    ensures forall j :: csp <= j < |nucleus| ==> itemno < nucleus[j]
  {
    end', csp := CopyBelow(itemset, end, nucleus, csp0, itemno);
    RoomFor(itemset[..end'], itemno);
    itemset[end'] := itemno;
    assert itemset[..end' + 1] == itemset[..end'] + [itemno];
    end' := end' + 1;
    ghost var mid := csp;
    while csp < |nucleus| && nucleus[csp] == itemno
      invariant mid <= csp <= |nucleus| && forall j :: mid <= j < csp ==> nucleus[j] == itemno
      modifies {}
    {
      csp := csp + 1;
    }
    assert nucleus[csp0..csp] == nucleus[csp0..mid] + nucleus[mid..csp];
  }

  /** Below an element of an increasing list there are fewer elements than its value. */
  lemma RoomToCopy(all: seq<int>, here: seq<int>, nucleus: seq<int>, csp: nat)
    requires csp < |nucleus| && all == here + nucleus[csp..] && Increasing(all) && forall i :: 0 <= i < |all| ==> 1 <= all[i]
    ensures |here| < nucleus[csp] && all == here + [nucleus[csp]] + nucleus[csp + 1..]
  {
    assert all[|here|] == nucleus[csp];
    forall i | 0 <= i < |here| ensures 1 <= here[i] < nucleus[csp] {
      assert all[i] == here[i];
    }
    assert here == all[..|here|];
    RoomFor(here, nucleus[csp]);
  }

  /** A sorted list of items below x still has room for one more. */
  lemma RoomFor(s: seq<int>, x: int)
    requires Increasing(s) && forall i :: 0 <= i < |s| ==> 1 <= s[i] < x
    ensures |s| < x || x < 1
  {
    if |s| > 0 { IncreasingRoom(s, |s| - 1); }
  }

  /** What one rule adds to the output. */
  lemma MergeRule(G: Grammar, s: seq<int>, out: seq<int>, csp: nat, r: nat, out': seq<int>, csp': nat)
    requires WellFormed(G) && Nucleus(G, s) && Merging(G, s, out, csp, r) && FromFirst(G, s, |s|, r)
    requires G.IsRule(r) && csp <= csp' <= |s| && Increasing(out') && |out| <= |out'|
    requires forall i :: i in out' <==> i in out || i in s[csp..csp'] || i == G.rrhs[r]
    requires forall i :: 0 <= i < |out'| ==> IsItem(G, out'[i]) && out'[i] <= G.rrhs[r]
    requires forall j :: csp' <= j < |s| ==> G.rrhs[r] < s[j]
    ensures Merging(G, s, out', csp', r + 1)
  {
    hide FromFirst, WellFormed;
    assert s[..csp'] == s[..csp] + s[csp..csp'];
    forall i ensures i in out' <==> Merged(G, s, csp', r + 1, i) {
      MergedMore(G, s, csp, csp', r, i);
    }
    forall q: nat | G.IsRule(q) && q >= r + 1 ensures G.rrhs[r] < G.rrhs[q] { RulesOrdered(G, r, q); }
  }

  lemma MergedMore(G: Grammar, s: seq<int>, csp: nat, csp': nat, r: nat, i: int)
    requires WellFormed(G) && Nucleus(G, s) && FromFirst(G, s, |s|, r) && csp <= csp' <= |s| && r < |G.rrhs|
    ensures Merged(G, s, csp', r + 1, i) <==> Merged(G, s, csp, r, i) || i in s[csp..csp'] || i == G.rrhs[r]
  {
    hide FromFirst, WellFormed;
    assert s[..csp'] == s[..csp] + s[csp..csp'];
    if i == G.rrhs[r] { assert RuleItem(G, s, r, i); }
  }

  /** A rule that is not brought in. */
  lemma SkipRule(G: Grammar, s: seq<int>, out: seq<int>, csp: nat, r: nat)
    requires WellFormed(G) && Nucleus(G, s) && Merging(G, s, out, csp, r) && !FromFirst(G, s, |s|, r)
    ensures Merging(G, s, out, csp, r + 1)
  {
    hide FromFirst, WellFormed;
    forall i ensures Merged(G, s, csp, r, i) <==> Merged(G, s, csp, r + 1, i) {
      if Merged(G, s, csp, r + 1, i) && !(i in s[..csp]) {
        var q: nat :| q < r + 1 && RuleItem(G, s, q, i);
        assert q < r;
      }
    }
  }

  /** A whole word of rules, none of them brought in. */
  lemma {:induction false} SkipWord(G: Grammar, s: seq<int>, out: seq<int>, csp: nat, r: nat, k: nat)
    requires WellFormed(G) && Nucleus(G, s) && Merging(G, s, out, csp, r)
    requires forall q: nat :: r <= q < r + k ==> !FromFirst(G, s, |s|, q)
    ensures Merging(G, s, out, csp, r + k)
    decreases k
  {
    hide FromFirst, WellFormed, Merging, Nucleus;
    if k > 0 {
      SkipWord(G, s, out, csp, r, k - 1);
      SkipRule(G, s, out, csp, r + (k - 1));
    }
  }

  lemma MergeStart(G: Grammar, s: seq<int>)
    requires WellFormed(G) && Nucleus(G, s)
    ensures Merging(G, s, [], 0, 0)
  {}

  /** At the end the rest of the nucleus follows. */
  lemma MergeEnd(G: Grammar, s: seq<int>, out: seq<int>, csp: nat, r: nat)
    requires WellFormed(G) && Nucleus(G, s) && Merging(G, s, out, csp, r) && r >= |G.rlhs|
    ensures AreItems(G, Elems(s)) && csp <= |s| && Increasing(out + s[csp..])
    ensures forall i :: i in out + s[csp..] <==> InClosure(G, Elems(s), i)
    ensures forall i :: 0 <= i < |out| ==> 1 <= out[i]
  {
    NucleusItems(G, s);
    forall i ensures i in out + s[csp..] <==> InClosure(G, Elems(s), i) {
      EndItem(G, s, out, csp, r, i);
    }
  }

  lemma EndItem(G: Grammar, s: seq<int>, out: seq<int>, csp: nat, r: nat, i: int)
    requires WellFormed(G) && Nucleus(G, s) && AreItems(G, Elems(s)) && Merging(G, s, out, csp, r) && r >= |G.rlhs|
    ensures i in out + s[csp..] <==> InClosure(G, Elems(s), i)
  {
    assert s == s[..csp] + s[csp..];
    forall q: nat ensures FromFirst(G, s, |s|, q) <==> BroughtIn(G, Elems(s), q) { FromAll(G, s, q); }
    hide FromFirst, WellFormed, BroughtIn, Nucleus;
    assert i in s <==> i in Elems(s);
    if InClosure(G, Elems(s), i) && i !in s {
      var q: nat :| BroughtIn(G, Elems(s), q) && i == G.rrhs[q];
      RuleOfClosure(G, Elems(s), q);
      assert RuleItem(G, s, q, i);
    }
    if i in out && i !in s {
      var q: nat :| q < r && RuleItem(G, s, q, i);
    }
  }

  lemma RuleOfClosure(G: Grammar, K: set<int>, q: nat)
    requires WellFormed(G) && AreItems(G, K) && BroughtIn(G, K, q)
    ensures q < |G.rlhs| && q < |G.rrhs|
  {}

  lemma BroughtRule(G: Grammar, s: seq<int>, r: nat)
    requires WellFormed(G) && Nucleus(G, s) && FromFirst(G, s, |s|, r)
    ensures G.IsRule(r) && 1 <= G.rrhs[r] < |G.ritem| && r < |G.rrhs|
  {
    var i :| 0 <= i < |s| && G.IsVar(G.ritem[s[i]]) && Wanted(G, G.ritem[s[i]] - G.ntokens, r);
    RuleBounds(G, r);
  }

  lemma AllWords(n: nat, w: nat)
    requires w >= WordSize(n)
    ensures 32 * w >= n
  {}

  lemma WordBits(word: bv32)
    ensures word == 0 ==> forall k: nat :: k < 32 ==> !BitOf(word, k)
  {
    WordZero(word);
  }

  lemma MaskEnd(k: nat)
    requires k <= 32
    ensures Mask(k) != 0 <==> k < 32
  {
    TopMask();
    if k < 32 { MaskNonZero(k); }
  }

  lemma TestIsBit(word: bv32, k: nat, mask: bv32)
    requires mask == Mask(k)
    ensures Test(word, mask) <==> BitOf(word, k)
  {
    hide Mask, Test;
  }

  /** The storage of closure.c: the rule rows, the rule set and the item set with its end. */
  class Closer {
    const G: Grammar
    const firstDerives: array2<bv32>
    const ruleset: array<bv32>
    const itemset: array<int>
    var itemsetend: nat

    ghost predicate Valid()
      reads this, firstDerives
    {
      && WellFormed(G) && FirstDerives(firstDerives, G)
      && ruleset.Length == firstDerives.Length1 && itemset.Length == |G.ritem| && itemsetend <= itemset.Length
      && (ruleset as object) != itemset
    }

    constructor (g: Grammar)
      requires WellFormed(g)
      ensures Valid() && G == g && fresh(ruleset) && fresh(itemset) && fresh(firstDerives)
    {
      G := g;
      var fd := SetFirstDerives(g);
      firstDerives := fd;
      ruleset := new bv32[WordSize(|g.rlhs|)];
      itemset := new int[|g.ritem|];
      itemsetend := 0;
    }

    /** One rule number of the scan. */
    method MergeOne(nucleus: seq<int>, csp0: nat, ruleno: nat) returns (csp: nat)
      requires Valid() && Nucleus(G, nucleus) && csp0 <= |nucleus| && FromFirst(G, nucleus, |nucleus|, ruleno)
      requires Merging(G, nucleus, itemset[..itemsetend], csp0, ruleno)
      modifies this`itemsetend, itemset
      ensures Valid() && csp <= |nucleus| && Merging(G, nucleus, itemset[..itemsetend], csp, ruleno + 1)
    {
      BroughtRule(G, nucleus, ruleno);
      hide FromFirst, WellFormed, FirstDerives, Merged;
      var itemno := G.rrhs[ruleno];
      ghost var out := itemset[..itemsetend];
      assert forall i :: 0 <= i < itemsetend ==> out[i] == itemset[i];
      var end;
      end, csp := Emit(itemset, itemsetend, nucleus, csp0, itemno);
      itemsetend := end;
      assert forall i :: 0 <= i < itemsetend ==> itemset[..itemsetend][i] == itemset[i];
      MergeRule(G, nucleus, out, csp0, ruleno, itemset[..itemsetend], csp);
    }

    /** All rules in one word of the rule set, by a mask that runs through it. */
    method MergeWord(nucleus: seq<int>, csp0: nat, w: nat) returns (csp: nat)
      requires Valid() && Nucleus(G, nucleus) && csp0 <= |nucleus| && w < ruleset.Length
      requires Merging(G, nucleus, itemset[..itemsetend], csp0, 32 * w)
      requires forall r: nat :: r / 32 < ruleset.Length ==> (RuleBit(ruleset, r) <==> FromFirst(G, nucleus, |nucleus|, r))
      modifies this`itemsetend, itemset
      ensures Valid() && csp <= |nucleus| && Merging(G, nucleus, itemset[..itemsetend], csp, 32 * (w + 1))
    {
      hide FromFirst, WellFormed, FirstDerives, Merging, Nucleus, Mask, Test, ShiftUp, BitOf;
      csp := csp0;
      var word := ruleset[w];
      WordBits(word);
      var ruleno := 32 * w;
      if word == 0 {
        forall q: nat | ruleno <= q < ruleno + 32 ensures !FromFirst(G, nucleus, |nucleus|, q) {
          assert q / 32 == w && !BitOf(word, q % 32);
        }
        SkipWord(G, nucleus, itemset[..itemsetend], csp, ruleno, 32);
        ruleno := ruleno + 32;
      } else {
        var mask := 1 as bv32;
        FirstMask();
        ghost var k := 0;
        while mask != 0
          invariant word == ruleset[w]
          invariant Valid() && k <= 32 && ruleno == 32 * w + k && mask == Mask(k) && csp <= |nucleus|
          invariant Merging(G, nucleus, itemset[..itemsetend], csp, ruleno)
          decreases 32 - k
          modifies this`itemsetend, itemset
        {
          MaskEnd(k);
          assert ruleno / 32 == w && ruleno % 32 == k;
          TestIsBit(word, k, mask);
          assert RuleBit(ruleset, ruleno) <==> Test(word, mask);
          if Test(word, mask) {
            csp := MergeOne(nucleus, csp, ruleno);
          } else {
            SkipRule(G, nucleus, itemset[..itemsetend], csp, ruleno);
          }
          MaskStep(k);
          mask := ShiftUp(mask);
          k := k + 1;
          ruleno := ruleno + 1;
        }
        MaskEnd(k);
      }
    }

    /** closure(): the item set becomes the sorted closure of the nucleus. */
    method Close(nucleus: seq<int>)
      requires Valid() && Nucleus(G, nucleus)
      modifies this`itemsetend, itemset, ruleset
      ensures Valid() && AreItems(G, Elems(nucleus)) && Increasing(itemset[..itemsetend])
      ensures forall i :: i in itemset[..itemsetend] <==> InClosure(G, Elems(nucleus), i)
    {
      hide FromFirst, WellFormed, Merging, RuleBit;
      CollectRules(G, nucleus, firstDerives, ruleset);
      itemsetend := 0;
      var csp: nat := 0;
      MergeStart(G, nucleus);
      assert itemset[..0] == [];
      var rsp: nat := 0;
      while rsp < ruleset.Length
        invariant Valid() && 0 <= rsp <= ruleset.Length && csp <= |nucleus|
        invariant forall r: nat :: r / 32 < ruleset.Length ==> (RuleBit(ruleset, r) <==> FromFirst(G, nucleus, |nucleus|, r))
        invariant Merging(G, nucleus, itemset[..itemsetend], csp, 32 * rsp)
        modifies this`itemsetend, itemset
      {
        csp := MergeWord(nucleus, csp, rsp);
        rsp := rsp + 1;
      }
      ghost var out := itemset[..itemsetend];
      AllWords(|G.rlhs|, rsp);
      MergeEnd(G, nucleus, out, csp, 32 * rsp);
      assert forall i :: 0 <= i < itemsetend ==> itemset[i] == out[i];
      CopyRest(nucleus, csp);
    }

    /** The rest of the nucleus. */
    method CopyRest(nucleus: seq<int>, csp0: nat)
      requires Valid() && Nucleus(G, nucleus) && csp0 <= |nucleus| && Increasing(itemset[..itemsetend] + nucleus[csp0..])
      requires forall i :: 0 <= i < itemsetend ==> 1 <= itemset[i]
      modifies this`itemsetend, itemset
      ensures Valid() && itemset[..itemsetend] == old(itemset[..itemsetend]) + nucleus[csp0..]
    {
      hide WellFormed, FirstDerives, Increasing;
      ghost var all := itemset[..itemsetend] + nucleus[csp0..];
      assert forall i :: 0 <= i < |all| ==> 1 <= all[i];
      var csp := csp0;
      while csp < |nucleus|
        invariant csp0 <= csp <= |nucleus| && itemsetend <= itemset.Length
        invariant itemset[..itemsetend] + nucleus[csp..] == all
        modifies this`itemsetend, itemset
      {
        ghost var here := itemset[..itemsetend];
        RoomToCopy(all, here, nucleus, csp);
        itemset[itemsetend] := nucleus[csp];
        assert itemset[..itemsetend + 1] == here + [nucleus[csp]];
        itemsetend := itemsetend + 1;
        csp := csp + 1;
      }
    }
  }
}
