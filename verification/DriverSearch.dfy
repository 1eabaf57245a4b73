/** What the backtracking driver decides: its trials are an exhaustive search over the ways of
    resolving conflicts, and its second pass repeats the successful trial. */
module DriverSearch {
  import opened DriverMachine

  // ----- Steps without choice -----

  /** `n` choice-free steps lead from `c` to `d`. */
  ghost predicate Leads(T: Tables, inp: seq<int>, c: Config, d: Config, n: nat)
    requires Sized(T)
    decreases n
  {
    if n == 0 then c == d
    else Quiet(T, inp, c).Some? && Quiet(T, inp, c).value.Goes? && Leads(T, inp, Quiet(T, inp, c).value.cfg, d, n - 1)
  }

  lemma LeadsThen(T: Tables, inp: seq<int>, c: Config, d: Config, n: nat, e: Config)
    requires Sized(T) && Leads(T, inp, c, d, n)
    requires Quiet(T, inp, d) == Some(Goes(e))
    ensures Leads(T, inp, c, e, n + 1)
    decreases n
  {
    if n > 0 {
      LeadsThen(T, inp, Quiet(T, inp, c).value.cfg, d, n - 1, e);
    }
  }

  ghost predicate Reachable(T: Tables, inp: seq<int>, c: Config, d: Config)
    requires Sized(T)
  {
    exists n: nat :: Leads(T, inp, c, d, n)
  }

  /** No resolution of the conflicts accepts from here. */
  ghost predicate Hopeless(T: Tables, inp: seq<int>, c: Config)
    requires Sized(T)
  {
    forall n: nat :: !CanAccept(T, inp, c, n)
  }

  ghost predicate HopelessNext(T: Tables, inp: seq<int>, x: Next)
    requires Sized(T)
  {
    forall n: nat :: !LeadsToAccept(T, inp, x, n)
  }

  /** The alternatives of a conflict entry end at a negative cell, and there is at least one. */
  ghost predicate Listed(T: Tables, ct: int) {
    0 <= ct < |T.ctable| && exists e :: ListEnds(T, ct, e)
  }

  ghost predicate ListEnds(T: Tables, ct: int, e: int)
    requires 0 <= ct < |T.ctable|
  {
    First(T, ct) < e < |T.ctable| && T.ctable[e] < 0 && forall j :: First(T, ct) <= j < e ==> T.ctable[j] >= 0
  }

  /** Every resolution of the conflicts fails within `n` steps from `c`. */
  ghost predicate Fails(T: Tables, inp: seq<int>, c: Config, n: nat)
    requires Sized(T)
    decreases n, 0
  {
    n > 0 && HasState(T, c) &&
    match Act(T, inp, c)
    case Reduce(r) => FailsNext(T, inp, DoReduce(T, inp, c, r), n - 1)
    case Shift(v) => FailsNext(T, inp, DoShift(c, v), n - 1)
    case Conflict(ct) => Listed(T, ct) && forall k :: Alternative(T, ct, k) ==> FailsNext(T, inp, Pick(T, inp, c, ct, k), n - 1)
    case Error => true
  }

  ghost predicate FailsNext(T: Tables, inp: seq<int>, x: Next, n: nat)
    requires Sized(T)
    decreases n, 1
  {
    match x
    case Accepts(_) => false
    case Goes(c) => Fails(T, inp, c, n)
    case Crashes => false
  }

  ghost predicate Doomed(T: Tables, inp: seq<int>, c: Config)
    requires Sized(T)
  {
    exists n: nat :: Fails(T, inp, c, n)
  }

  ghost predicate DoomedNext(T: Tables, inp: seq<int>, x: Next)
    requires Sized(T)
  {
    exists n: nat :: FailsNext(T, inp, x, n)
  }

  lemma {:induction false} FailsMore(T: Tables, inp: seq<int>, c: Config, n: nat, m: nat)
    requires Sized(T) && Fails(T, inp, c, n) && n <= m
    ensures Fails(T, inp, c, m)
    decreases n, 0
  {
    match Act(T, inp, c)
    case Reduce(r) => FailsNextMore(T, inp, DoReduce(T, inp, c, r), n - 1, m - 1);
    case Shift(v) => FailsNextMore(T, inp, DoShift(c, v), n - 1, m - 1);
    case Conflict(ct) =>
      forall k | Alternative(T, ct, k) ensures FailsNext(T, inp, Pick(T, inp, c, ct, k), m - 1) {
        FailsNextMore(T, inp, Pick(T, inp, c, ct, k), n - 1, m - 1);
      }
    case Error =>
  }

  lemma FailsNextMore(T: Tables, inp: seq<int>, x: Next, n: nat, m: nat)
    requires Sized(T) && FailsNext(T, inp, x, n) && n <= m
    ensures FailsNext(T, inp, x, m)
    decreases n, 1
  {
    if x.Goes? { FailsMore(T, inp, x.cfg, n, m); }
  }

  /** What fails everywhere accepts nowhere. */
  lemma {:induction false} FailsIsHopeless(T: Tables, inp: seq<int>, c: Config, n: nat)
    requires Sized(T) && Fails(T, inp, c, n)
    ensures Hopeless(T, inp, c)
    decreases n, 0
  {
    forall k: nat ensures !CanAccept(T, inp, c, k) {
      if k > 0 {
        match Act(T, inp, c)
        case Reduce(r) => FailsNextIsHopeless(T, inp, DoReduce(T, inp, c, r), n - 1);
        case Shift(v) => FailsNextIsHopeless(T, inp, DoShift(c, v), n - 1);
        case Conflict(ct) =>
          forall j | Alternative(T, ct, j) ensures !LeadsToAccept(T, inp, Pick(T, inp, c, ct, j), k - 1) {
            FailsNextIsHopeless(T, inp, Pick(T, inp, c, ct, j), n - 1);
          }
        case Error =>
      }
    }
  }

  lemma FailsNextIsHopeless(T: Tables, inp: seq<int>, x: Next, n: nat)
    requires Sized(T) && FailsNext(T, inp, x, n)
    ensures HopelessNext(T, inp, x)
    decreases n, 1
  {
    if x.Goes? { FailsIsHopeless(T, inp, x.cfg, n); }
    forall k: nat ensures !LeadsToAccept(T, inp, x, k) {
      assert x.Goes? ==> !CanAccept(T, inp, x.cfg, k);
    }
  }

  /** Choice-free steps do not escape failure. */
  lemma {:induction false} FailsBack(T: Tables, inp: seq<int>, c: Config, d: Config, n: nat, m: nat)
    requires Sized(T) && Leads(T, inp, c, d, n) && Fails(T, inp, d, m)
    ensures Fails(T, inp, c, n + m)
    decreases n
  {
    if n > 0 { FailsBack(T, inp, Quiet(T, inp, c).value.cfg, d, n - 1, m); }
  }

  // ----- The trial stack -----

  ghost predicate AtConflict(T: Tables, inp: seq<int>, c: Config)
    requires Sized(T)
  {
    HasState(T, c) && Act(T, inp, c).Conflict?
  }

  /** The configuration right after taking the saved alternative. */
  function After(T: Tables, inp: seq<int>, sv: Saved): Next
    requires Sized(T)
  {
    if HasState(T, sv.cfg) && Act(T, inp, sv.cfg).Conflict? then
      Pick(T, inp, sv.cfg, Act(T, inp, sv.cfg).entry, sv.ctry)
    else Crashes
  }

  /** A saved conflict is one, tries one of its alternatives, and all earlier ones fail in the end. */
  ghost predicate SavedOk(T: Tables, inp: seq<int>, sv: Saved)
    requires Sized(T)
  {
    && AtConflict(T, inp, sv.cfg)
    && var ct := Act(T, inp, sv.cfg).entry;
    && Alternative(T, ct, sv.ctry)
    && forall k :: Alternative(T, ct, k) && k < sv.ctry ==> DoomedNext(T, inp, Pick(T, inp, sv.cfg, ct, k))
  }

  /** Where the segment that starts with saved conflict `k` ends: the next conflict, or here. */
  function SegmentEnd(saves: seq<Saved>, here: Config, k: nat): Config
    requires k < |saves|
  {
    if k + 1 < |saves| then saves[k + 1].cfg else here
  }

  ghost predicate Segment(T: Tables, inp: seq<int>, saves: seq<Saved>, here: Config, k: nat)
    requires Sized(T) && k < |saves|
  {
    && SavedOk(T, inp, saves[k])
    && After(T, inp, saves[k]).Goes?
    && Reachable(T, inp, After(T, inp, saves[k]).cfg, SegmentEnd(saves, here, k))
  }

  /** The trial stack is the history of choices that led from `c0` to `here`. */
  ghost predicate History(T: Tables, inp: seq<int>, c0: Config, saves: seq<Saved>, here: Config)
    requires Sized(T)
  {
    && Reachable(T, inp, c0, if saves == [] then here else saves[0].cfg)
    && forall k :: 0 <= k < |saves| ==> Segment(T, inp, saves, here, k)
  }

  // ----- Searching -----

  lemma HistoryExtends(T: Tables, inp: seq<int>, c0: Config, saves: seq<Saved>, here: Config, next: Config)
    requires Sized(T) && History(T, inp, c0, saves, here) && Quiet(T, inp, here) == Some(Goes(next))
    ensures History(T, inp, c0, saves, next)
  {
    if saves == [] {
      var n: nat :| Leads(T, inp, c0, here, n);
      LeadsThen(T, inp, c0, here, n, next);
    }
    forall k | 0 <= k < |saves| ensures Segment(T, inp, saves, next, k) {
      assert Segment(T, inp, saves, here, k);
      if k + 1 == |saves| {
        var c := After(T, inp, saves[k]).cfg;
        var n: nat :| Leads(T, inp, c, here, n);
        LeadsThen(T, inp, c, here, n, next);
      }
    }
  }

  lemma ReachableRefl(T: Tables, inp: seq<int>, c: Config)
    requires Sized(T)
    ensures Reachable(T, inp, c, c)
  {
    assert Leads(T, inp, c, c, 0);
  }

  /** Meeting a new conflict pushes it with its first alternative. */
  lemma HistoryPush(T: Tables, inp: seq<int>, c0: Config, saves: seq<Saved>, sv: Saved, next: Config)
    requires Sized(T) && History(T, inp, c0, saves, sv.cfg)
    requires SavedOk(T, inp, sv) && After(T, inp, sv) == Goes(next)
    ensures History(T, inp, c0, saves + [sv], next)
  {
    var saves' := saves + [sv];
    ReachableRefl(T, inp, next);
    forall k | 0 <= k < |saves'| ensures Segment(T, inp, saves', next, k) {
      if k < |saves| { assert Segment(T, inp, saves, sv.cfg, k); }
    }
  }

  /** Dropping the newest conflict leaves a history that ends at it. */
  lemma HistoryDrop(T: Tables, inp: seq<int>, c0: Config, saves: seq<Saved>, here: Config)
    requires Sized(T) && History(T, inp, c0, saves, here) && saves != []
    ensures History(T, inp, c0, saves[..|saves| - 1], saves[|saves| - 1].cfg)
  {
    var older := saves[..|saves| - 1];
    var last := saves[|saves| - 1].cfg;
    forall k | 0 <= k < |older| ensures Segment(T, inp, older, last, k) {
      assert Segment(T, inp, saves, here, k);
    }
  }

  /** A dead end makes the newest alternative fail. */
  lemma DeadEnd(T: Tables, inp: seq<int>, c0: Config, saves: seq<Saved>, here: Config)
    requires Sized(T) && History(T, inp, c0, saves, here) && saves != [] && Doomed(T, inp, here)
    ensures DoomedNext(T, inp, After(T, inp, saves[|saves| - 1]))
  {
    var k := |saves| - 1;
    assert Segment(T, inp, saves, here, k);
    var c := After(T, inp, saves[k]).cfg;
    var n: nat :| Leads(T, inp, c, here, n);
    var m: nat :| Fails(T, inp, here, m);
    FailsBack(T, inp, c, here, n, m);
    assert FailsNext(T, inp, After(T, inp, saves[k]), n + m);
  }

  /** One bound for the alternatives up to `k`. */
  lemma {:induction false} CommonBound(T: Tables, inp: seq<int>, c: Config, ct: int, k: int) returns (n: nat)
    requires Sized(T) && 0 <= ct < |T.ctable|
    requires forall j :: Alternative(T, ct, j) && j <= k ==> DoomedNext(T, inp, Pick(T, inp, c, ct, j))
    ensures forall j :: Alternative(T, ct, j) && j <= k ==> FailsNext(T, inp, Pick(T, inp, c, ct, j), n)
    decreases k - First(T, ct)
  {
    n := 0;
    if k >= First(T, ct) {
      var m := CommonBound(T, inp, c, ct, k - 1);
      n := m;
      if Alternative(T, ct, k) {
        var l: nat :| FailsNext(T, inp, Pick(T, inp, c, ct, k), l);
        n := if l < m then m else l;
        FailsNextMore(T, inp, Pick(T, inp, c, ct, k), l, n);
      }
      forall j | Alternative(T, ct, j) && j < k ensures FailsNext(T, inp, Pick(T, inp, c, ct, j), n) {
        FailsNextMore(T, inp, Pick(T, inp, c, ct, j), m, n);
      }
    }
  }

  /** When the alternatives up to `ctry` fail and the next entry ends the list, so does the conflict. */
  lemma ExhaustedIsDoomed(T: Tables, inp: seq<int>, sv: Saved)
    requires Sized(T) && SavedOk(T, inp, sv) && DoomedNext(T, inp, After(T, inp, sv))
    requires 0 <= sv.ctry + 1 < |T.ctable| && T.ctable[sv.ctry + 1] < 0
    ensures Doomed(T, inp, sv.cfg)
  {
    var ct := Act(T, inp, sv.cfg).entry;
    var n := CommonBound(T, inp, sv.cfg, ct, sv.ctry);
    assert ListEnds(T, ct, sv.ctry + 1);
    forall k | Alternative(T, ct, k) ensures FailsNext(T, inp, Pick(T, inp, sv.cfg, ct, k), n) {
      assert k <= sv.ctry;
    }
    assert Fails(T, inp, sv.cfg, n + 1);
  }

  /** The next alternative of a conflict may be tried once the current one has failed. */
  lemma NextAlternativeOk(T: Tables, inp: seq<int>, sv: Saved)
    requires Sized(T) && SavedOk(T, inp, sv) && DoomedNext(T, inp, After(T, inp, sv))
    requires 0 <= sv.ctry + 1 < |T.ctable| && T.ctable[sv.ctry + 1] >= 0
    ensures SavedOk(T, inp, Saved(sv.cfg, sv.ctry + 1))
    ensures After(T, inp, Saved(sv.cfg, sv.ctry + 1)) == DoReduce(T, inp, sv.cfg, T.ctable[sv.ctry + 1])
  {
    var ct := Act(T, inp, sv.cfg).entry;
    forall k | Alternative(T, ct, k) && k < sv.ctry + 1
      ensures DoomedNext(T, inp, Pick(T, inp, sv.cfg, ct, k))
    {
      if k < sv.ctry { assert DoomedNext(T, inp, Pick(T, inp, sv.cfg, ct, k)); }
    }
  }

  // ----- The second pass -----

  /** From `c`, taking the recorded alternatives at exactly the recorded conflicts accepts in `n` steps. */
  ghost predicate Script(T: Tables, inp: seq<int>, c: Config, path: seq<Saved>, n: nat)
    requires Sized(T)
    decreases n, 0
  {
    n > 0 && HasState(T, c) &&
    match Act(T, inp, c)
    case Reduce(r) => ScriptNext(T, inp, DoReduce(T, inp, c, r), path, n - 1)
    case Shift(v) => ScriptNext(T, inp, DoShift(c, v), path, n - 1)
    case Conflict(ct) =>
      && path != [] && path[0].cfg == c && 0 <= ct < |T.ctable|
      && ScriptNext(T, inp, Pick(T, inp, c, ct, path[0].ctry), path[1..], n - 1)
    case Error => false
  }

  ghost predicate ScriptNext(T: Tables, inp: seq<int>, x: Next, path: seq<Saved>, n: nat)
    requires Sized(T)
    decreases n, 1
  {
    match x
    case Accepts(_) => path == []
    case Goes(c) => Script(T, inp, c, path, n)
    case Crashes => false
  }

  lemma ScriptBack(T: Tables, inp: seq<int>, c: Config, d: Config, n: nat, path: seq<Saved>, k: nat)
    requires Sized(T) && Leads(T, inp, c, d, n) && Script(T, inp, d, path, k)
    ensures Script(T, inp, c, path, n + k)
    decreases n
  {
    if n > 0 {
      ScriptBack(T, inp, Quiet(T, inp, c).value.cfg, d, n - 1, path, k);
    }
  }

  /** The history of a trial, replayed from its first conflict, is a script. */
  lemma HistoryIsScript(T: Tables, inp: seq<int>, c0: Config, saves: seq<Saved>, here: Config, rest: seq<Saved>, n: nat)
      returns (k: nat)
    requires Sized(T) && History(T, inp, c0, saves, here) && Script(T, inp, here, rest, n)
    ensures saves == [] ==> k == n
    ensures saves != [] ==> Script(T, inp, saves[0].cfg, saves + rest, k)
    decreases |saves|
  {
    k := n;
    if saves != [] {
      var last := |saves| - 1;
      assert Segment(T, inp, saves, here, last);
      var c := After(T, inp, saves[last]).cfg;
      var i: nat :| Leads(T, inp, c, here, i);
      ScriptBack(T, inp, c, here, i, rest, n);
      var rest' := [saves[last]] + rest;
      assert rest'[1..] == rest;
      assert Script(T, inp, saves[last].cfg, rest', i + n + 1);
      HistoryDrop(T, inp, c0, saves, here);
      k := HistoryIsScript(T, inp, c0, saves[..last], saves[last].cfg, rest', i + n + 1);
      assert saves[..last] + rest' == saves + rest;
    }
  }

  /** The first accepting resolution in the order of the alternatives: taking those of `ks` at exactly its conflicts
      accepts, and at each of these all earlier alternatives fail. */
  ghost predicate Found(T: Tables, inp: seq<int>, c: Config, ks: seq<Saved>)
    requires Sized(T)
  {
    (exists n: nat :: Script(T, inp, c, ks, n)) && forall i :: 0 <= i < |ks| ==> SavedOk(T, inp, ks[i])
  }

  ghost predicate Finds(T: Tables, inp: seq<int>, c: Config)
    requires Sized(T)
  {
    exists ks: seq<Saved> :: Found(T, inp, c, ks)
  }

  /** A trial that can be finished is the first accepting resolution. */
  lemma HistoryFound(T: Tables, inp: seq<int>, c0: Config, saves: seq<Saved>, here: Config, rest: seq<Saved>, n: nat)
    requires Sized(T) && History(T, inp, c0, saves, here) && Script(T, inp, here, rest, n)
    requires forall i :: 0 <= i < |rest| ==> SavedOk(T, inp, rest[i])
    ensures Found(T, inp, c0, saves + rest)
  {
    var k := HistoryIsScript(T, inp, c0, saves, here, rest, n);
    var d := if saves == [] then here else saves[0].cfg;
    var i: nat :| Leads(T, inp, c0, d, i);
    assert saves == [] ==> saves + rest == rest;
    ScriptBack(T, inp, c0, d, i, saves + rest, k);
    forall j | 0 <= j < |saves| ensures SavedOk(T, inp, saves[j]) {
      assert Segment(T, inp, saves, here, j);
    }
  }

  /** A script of alternatives accepts. */
  lemma {:induction false} ScriptAccepts(T: Tables, inp: seq<int>, c: Config, ks: seq<Saved>, n: nat)
    requires Sized(T) && Script(T, inp, c, ks, n) && forall i :: 0 <= i < |ks| ==> SavedOk(T, inp, ks[i])
    ensures CanAccept(T, inp, c, n)
    decreases n, 0
  {
    match Act(T, inp, c)
    case Reduce(r) => ScriptNextAccepts(T, inp, DoReduce(T, inp, c, r), ks, n - 1);
    case Shift(v) => ScriptNextAccepts(T, inp, DoShift(c, v), ks, n - 1);
    case Conflict(ct) =>
      assert SavedOk(T, inp, ks[0]);
      ScriptNextAccepts(T, inp, Pick(T, inp, c, ct, ks[0].ctry), ks[1..], n - 1);
    case Error =>
  }

  lemma ScriptNextAccepts(T: Tables, inp: seq<int>, x: Next, ks: seq<Saved>, n: nat)
    requires Sized(T) && ScriptNext(T, inp, x, ks, n) && forall i :: 0 <= i < |ks| ==> SavedOk(T, inp, ks[i])
    ensures LeadsToAccept(T, inp, x, n)
    decreases n, 1
  {
    if x.Goes? { ScriptAccepts(T, inp, x.cfg, ks, n); }
  }

  // ----- The invariant of the driver -----

  ghost predicate Searching(T: Tables, inp: seq<int>, c0: Config, m: Machine)
    requires Sized(T)
  {
    m.path == [] && History(T, inp, c0, m.saves, m.cfg)
  }

  ghost predicate Following(T: Tables, inp: seq<int>, c0: Config, m: Machine, n: nat)
    requires Sized(T)
  {
    m.saves == [] && Script(T, inp, m.cfg, m.path, n) && Finds(T, inp, c0)
  }

  ghost predicate DriverInv(T: Tables, inp: seq<int>, c0: Config, m: Machine)
    requires Sized(T)
  {
    Searching(T, inp, c0, m) || exists n: nat :: Following(T, inp, c0, m, n)
  }

  /** What each possible result of a step means. */
  ghost predicate Meaning(T: Tables, inp: seq<int>, c0: Config, r: Result)
    requires Sized(T)
  {
    match r
    case Running(m) => DriverInv(T, inp, c0, m)
    case Accepted(_) => Finds(T, inp, c0)
    case SyntaxError => Doomed(T, inp, c0)
    case Aborted => false
    case Crashed => true
  }

  /** A trial that accepts right after the alternative of its newest conflict. */
  lemma TrialAccepts(T: Tables, inp: seq<int>, c0: Config, m: Machine, older: seq<Saved>, sv: Saved, done: Config)
    requires Sized(T) && m.path == [] && m.saves == older + [sv]
    requires History(T, inp, c0, older, sv.cfg) && SavedOk(T, inp, sv) && After(T, inp, sv) == Accepts(done)
    ensures Meaning(T, inp, c0, OnAccept(m, done))
  {
    assert [sv][1..] == [];
    assert Script(T, inp, sv.cfg, [sv], 1);
    HistoryFound(T, inp, c0, older, sv.cfg, [sv], 1);
    var k := HistoryIsScript(T, inp, c0, older, sv.cfg, [sv], 1);
    var m' := Machine(m.saves[0].cfg, [], m.saves);
    assert Following(T, inp, c0, m', k);
  }

  /** A choice-free step that accepts. */
  lemma QuietAccepts(T: Tables, inp: seq<int>, c0: Config, m: Machine, done: Config)
    requires Sized(T) && Searching(T, inp, c0, m) && Quiet(T, inp, m.cfg) == Some(Accepts(done))
    ensures Meaning(T, inp, c0, OnAccept(m, done))
  {
    assert Script(T, inp, m.cfg, [], 1);
    HistoryFound(T, inp, c0, m.saves, m.cfg, [], 1);
    if m.saves != [] {
      var k := HistoryIsScript(T, inp, c0, m.saves, m.cfg, [], 1);
      assert m.saves + [] == m.saves;
      var m' := Machine(m.saves[0].cfg, [], m.saves);
      assert Following(T, inp, c0, m', k);
    }
  }

  lemma QuietKeeps(T: Tables, inp: seq<int>, c0: Config, m: Machine)
    requires Sized(T) && Searching(T, inp, c0, m) && Quiet(T, inp, m.cfg).Some?
    ensures Meaning(T, inp, c0, Follow(m, Quiet(T, inp, m.cfg).value))
  {
    match Quiet(T, inp, m.cfg).value
    case Goes(c) => HistoryExtends(T, inp, c0, m.saves, m.cfg, c);
    case Accepts(c) => QuietAccepts(T, inp, c0, m, c);
    case Crashes =>
  }

  /** Following the alternative of a conflict that has just been put on top of the trial stack. */
  lemma ChoiceKeeps(T: Tables, inp: seq<int>, c0: Config, m: Machine, older: seq<Saved>, sv: Saved)
    requires Sized(T) && m.path == [] && m.saves == older + [sv]
    requires History(T, inp, c0, older, sv.cfg) && SavedOk(T, inp, sv)
    ensures Meaning(T, inp, c0, Follow(m, After(T, inp, sv)))
  {
    match After(T, inp, sv)
    case Goes(c) => HistoryPush(T, inp, c0, older, sv, c);
    case Accepts(c) => TrialAccepts(T, inp, c0, m, older, sv, c);
    case Crashes =>
  }

  lemma NothingLeft(T: Tables, inp: seq<int>, c0: Config, here: Config)
    requires Sized(T) && History(T, inp, c0, [], here) && Doomed(T, inp, here)
    ensures Doomed(T, inp, c0)
  {
    hide Fails;
    var n: nat :| Leads(T, inp, c0, here, n);
    var m: nat :| Fails(T, inp, here, m);
    FailsBack(T, inp, c0, here, n, m);
  }

  lemma LastSave(T: Tables, inp: seq<int>, c0: Config, saves: seq<Saved>, here: Config)
    requires Sized(T) && History(T, inp, c0, saves, here) && saves != []
    ensures SavedOk(T, inp, saves[|saves| - 1])
  {
    hide SavedOk, Reachable, After;
    assert Segment(T, inp, saves, here, |saves| - 1);
  }

  lemma BacktrackKeeps(T: Tables, inp: seq<int>, c0: Config, m: Machine)
    requires Sized(T) && Searching(T, inp, c0, m) && Doomed(T, inp, m.cfg)
    ensures Meaning(T, inp, c0, Backtrack(T, inp, m))
    decreases |m.saves|
  {
    hide History, Doomed, SavedOk, DoomedNext, After, DoReduce, Follow, DriverInv;
    if m.saves == [] {
      NothingLeft(T, inp, c0, m.cfg);
    } else {
      var older, sv := m.saves[..|m.saves| - 1], m.saves[|m.saves| - 1];
      var k := sv.ctry + 1;
      HistoryDrop(T, inp, c0, m.saves, m.cfg);
      DeadEnd(T, inp, c0, m.saves, m.cfg);
      LastSave(T, inp, c0, m.saves, m.cfg);
      if 0 <= k < |T.ctable| {
        if T.ctable[k] >= 0 {
          NextAlternativeOk(T, inp, sv);
          ChoiceKeeps(T, inp, c0, Machine(sv.cfg, older + [Saved(sv.cfg, k)], m.path), older, Saved(sv.cfg, k));
        } else {
          ExhaustedIsDoomed(T, inp, sv);
          BacktrackKeeps(T, inp, c0, Machine(sv.cfg, older, m.path));
        }
      }
    }
  }

  lemma SearchStep(T: Tables, inp: seq<int>, c0: Config, m: Machine)
    requires Sized(T) && Searching(T, inp, c0, m)
    ensures Meaning(T, inp, c0, Step(T, inp, m))
  {
    if HasState(T, m.cfg) {
      match Act(T, inp, m.cfg)
      case Reduce(n) => QuietKeeps(T, inp, c0, m);
      case Shift(v) => QuietKeeps(T, inp, c0, m);
      case Conflict(ct) =>
        if 0 <= ct < |T.ctable| {
          var sv := Saved(m.cfg, First(T, ct));
          if Alternative(T, ct, First(T, ct)) {
            ChoiceKeeps(T, inp, c0, m.(saves := m.saves + [sv]), m.saves, sv);
          }
        }
      case Error =>
        assert Fails(T, inp, m.cfg, 1);
        BacktrackKeeps(T, inp, c0, m);
    }
  }

  /** The second pass meets exactly the recorded conflicts: it never aborts and gets closer to accepting. */
  lemma FollowStep(T: Tables, inp: seq<int>, c0: Config, m: Machine, n: nat)
    requires Sized(T) && Following(T, inp, c0, m, n)
    ensures n > 0
    ensures match Step(T, inp, m)
            case Running(m') => Following(T, inp, c0, m', n - 1)
            case Accepted(_) => true
            case _ => false
    ensures AtConflict(T, inp, m.cfg) ==> m.path != [] && m.path[0].cfg == m.cfg
  {
    assert Script(T, inp, m.cfg, m.path, n);
    match Act(T, inp, m.cfg)
    case Reduce(r) =>
      assert ScriptNext(T, inp, DoReduce(T, inp, m.cfg, r), m.path, n - 1);
    case Shift(v) =>
      assert ScriptNext(T, inp, DoShift(m.cfg, v), m.path, n - 1);
    case Conflict(ct) =>
      assert ScriptNext(T, inp, Pick(T, inp, m.cfg, ct, m.path[0].ctry), m.path[1..], n - 1);
    case Error =>
  }

  // ----- Main results -----

  lemma StepKeeps(T: Tables, inp: seq<int>, c0: Config, m: Machine)
    requires Sized(T) && DriverInv(T, inp, c0, m)
    ensures Meaning(T, inp, c0, Step(T, inp, m))
  {
    if Searching(T, inp, c0, m) {
      SearchStep(T, inp, c0, m);
    } else {
      var n: nat :| Following(T, inp, c0, m, n);
      FollowStep(T, inp, c0, m, n);
    }
  }

  lemma {:induction false} RunKeeps(T: Tables, inp: seq<int>, c0: Config, m: Machine, n: nat)
    requires Sized(T) && DriverInv(T, inp, c0, m)
    ensures Meaning(T, inp, c0, Run(T, inp, m, n))
    decreases n
  {
    if n > 0 {
      StepKeeps(T, inp, c0, m);
      match Step(T, inp, m)
      case Running(m') => RunKeeps(T, inp, c0, m', n - 1);
      case _ =>
    }
  }

  /** Whatever the input and however long it runs: the driver accepts only where a first accepting resolution of the
      conflicts exists, reports a syntax error only where every resolution fails, and never aborts. */
  lemma RunMeans(T: Tables, inp: seq<int>, n: nat)
    requires Sized(T)
    ensures Run(T, inp, Start(), n).Accepted? ==> Finds(T, inp, Start().cfg)
    ensures Run(T, inp, Start(), n).SyntaxError? ==> Doomed(T, inp, Start().cfg)
    ensures !Run(T, inp, Start(), n).Aborted?
  {
    ReachableRefl(T, inp, Start().cfg);
    RunKeeps(T, inp, Start().cfg, Start(), n);
  }

  /** It accepts only if some resolution of the conflicts accepts, and reports a syntax error only if none does. */
  lemma SearchIsExact(T: Tables, inp: seq<int>, n: nat)
    requires Sized(T)
    ensures Run(T, inp, Start(), n).Accepted? ==> exists k: nat :: CanAccept(T, inp, Start().cfg, k)
    ensures Run(T, inp, Start(), n).SyntaxError? ==> forall k: nat :: !CanAccept(T, inp, Start().cfg, k)
    ensures !Run(T, inp, Start(), n).Aborted?
  {
    RunMeans(T, inp, n);
    var c := Start().cfg;
    if Run(T, inp, Start(), n).Accepted? {
      var ks :| Found(T, inp, c, ks);
      var k: nat :| Script(T, inp, c, ks, k);
      ScriptAccepts(T, inp, c, ks, k);
    }
    if Run(T, inp, Start(), n).SyntaxError? {
      var k: nat :| Fails(T, inp, c, k);
      FailsIsHopeless(T, inp, c, k);
    }
  }

  /** Once a trial has reached accept, the second pass accepts after finitely many steps. */
  lemma SecondPassAccepts(T: Tables, inp: seq<int>, n: nat) returns (k: nat)
    requires Sized(T) && Run(T, inp, Start(), n).Running? && Run(T, inp, Start(), n).m.path != []
    ensures Run(T, inp, Run(T, inp, Start(), n).m, k).Accepted?
  {
    ReachableRefl(T, inp, Start().cfg);
    RunKeeps(T, inp, Start().cfg, Start(), n);
    var m := Run(T, inp, Start(), n).m;
    k :| Following(T, inp, Start().cfg, m, k);
    FollowingAccepts(T, inp, Start().cfg, m, k);
  }

  lemma {:induction false} FollowingAccepts(T: Tables, inp: seq<int>, c0: Config, m: Machine, n: nat)
    requires Sized(T) && Following(T, inp, c0, m, n)
    ensures Run(T, inp, m, n).Accepted?
    decreases n
  {
    FollowStep(T, inp, c0, m, n);
    match Step(T, inp, m)
    case Running(m') => FollowingAccepts(T, inp, c0, m', n - 1);
    case _ =>
  }
}
