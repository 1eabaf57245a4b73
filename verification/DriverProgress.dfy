/** The search gets on: where every alternative of a conflict fails the driver comes to the next one, where one accepts
    the driver comes to it, and the conflicts of the first accepting resolution are met again on a second pass. */
module DriverProgress {
  import opened DriverMachine
  import opened DriverSearch

  /** `n` more passes. */
  function Then(T: Tables, inp: seq<int>, r: Result, n: nat): Result
    requires Sized(T)
  {
    if r.Running? then Run(T, inp, r.m, n) else r
  }

  lemma {:induction false} RunThen(T: Tables, inp: seq<int>, m: Machine, i: nat, j: nat)
    requires Sized(T)
    ensures Run(T, inp, m, i + j) == Then(T, inp, Run(T, inp, m, i), j)
    decreases i
  {
    if i > 0 && Step(T, inp, m).Running? { RunThen(T, inp, Step(T, inp, m).m, i - 1, j); }
  }

  lemma ThenThen(T: Tables, inp: seq<int>, r: Result, i: nat, j: nat)
    requires Sized(T)
    ensures Then(T, inp, r, i + j) == Then(T, inp, Then(T, inp, r, i), j)
  {
    if r.Running? { RunThen(T, inp, r.m, i, j); }
  }

  lemma ThenNone(T: Tables, inp: seq<int>, r: Result)
    requires Sized(T)
    ensures Then(T, inp, r, 0) == r
  {}

  /** A pass and what comes after it. */
  lemma StepThen(T: Tables, inp: seq<int>, m: Machine, n: nat)
    requires Sized(T)
    ensures Run(T, inp, m, n + 1) == Then(T, inp, Step(T, inp, m), n)
  {}

  // ----- Failing -----

  /** Where every resolution fails, the driver comes to the next alternative of an older conflict. */
  lemma {:induction false} FailsReturns(T: Tables, inp: seq<int>, m: Machine, n: nat) returns (k: nat)
    requires Sized(T) && m.path == [] && Fails(T, inp, m.cfg, n)
    ensures Run(T, inp, m, k) == Backtrack(T, inp, m)
    decreases n, 0, 0
  {
    match Act(T, inp, m.cfg)
    case Reduce(r) =>
      k := FailsOn(T, inp, m, DoReduce(T, inp, m.cfg, r), n - 1);
      StepThen(T, inp, m, k);
      k := k + 1;
    case Shift(v) =>
      k := FailsOn(T, inp, m, DoShift(m.cfg, v), n - 1);
      StepThen(T, inp, m, k);
      k := k + 1;
    case Conflict(ct) =>
      var e :| ListEnds(T, ct, e);
      assert Alternative(T, ct, First(T, ct));
      k := AlternativesFail(T, inp, m, ct, First(T, ct), e, n - 1);
      StepThen(T, inp, m, k);
      k := k + 1;
    case Error =>
      k := 1;
      assert Run(T, inp, m, 1) == Then(T, inp, Step(T, inp, m), 0);
  }

  lemma FailsOn(T: Tables, inp: seq<int>, m: Machine, x: Next, n: nat) returns (k: nat)
    requires Sized(T) && m.path == [] && FailsNext(T, inp, x, n)
    ensures Then(T, inp, Follow(m, x), k) == Backtrack(T, inp, m)
    decreases n, 2, 0
  {
    var m' := m.(cfg := x.cfg);
    k := FailsReturns(T, inp, m', n);
    SameBacktrack(T, inp, m, m');
  }

  /** Backtracking does not look at the present configuration. */
  lemma SameBacktrack(T: Tables, inp: seq<int>, m: Machine, m': Machine)
    requires Sized(T) && m.saves == m'.saves && m.path == m'.path
    ensures Backtrack(T, inp, m) == Backtrack(T, inp, m')
  {}

  /** The machine that tries alternative `k` of the conflict it is at. */
  function Trying(T: Tables, inp: seq<int>, m: Machine, ct: int, k: int): Result
    requires Sized(T)
  {
    Follow(m.(saves := m.saves + [Saved(m.cfg, k)]), Pick(T, inp, m.cfg, ct, k))
  }

  /** After a failed alternative comes the next one, or an older conflict. */
  lemma Retry(T: Tables, inp: seq<int>, m: Machine, ct: int, k: int, e: int)
    requires Sized(T) && m.path == [] && 0 <= ct < |T.ctable| && ListEnds(T, ct, e) && First(T, ct) <= k < e
    ensures Backtrack(T, inp, m.(saves := m.saves + [Saved(m.cfg, k)])) ==
      if k + 1 < e then Trying(T, inp, m, ct, k + 1) else Backtrack(T, inp, m)
  {
    var saves := m.saves + [Saved(m.cfg, k)];
    assert saves[..|saves| - 1] == m.saves;
  }

  lemma AlternativesFail(T: Tables, inp: seq<int>, m: Machine, ct: int, k: int, e: int, n: nat) returns (i: nat)
    requires Sized(T) && m.path == [] && 0 <= ct < |T.ctable| && ListEnds(T, ct, e) && First(T, ct) <= k < e
    requires forall j :: Alternative(T, ct, j) ==> FailsNext(T, inp, Pick(T, inp, m.cfg, ct, j), n)
    ensures Then(T, inp, Trying(T, inp, m, ct, k), i) == Backtrack(T, inp, m)
    decreases n, 3, e - k
  {
    hide Follow, Pick, Then, Backtrack, FailsNext;
    i := FailsOn(T, inp, m.(saves := m.saves + [Saved(m.cfg, k)]), Pick(T, inp, m.cfg, ct, k), n);
    Retry(T, inp, m, ct, k, e);
    if k + 1 < e {
      var j := AlternativesFail(T, inp, m, ct, k + 1, e, n);
      ThenThen(T, inp, Trying(T, inp, m, ct, k), i, j);
      i := i + j;
    }
  }

  // ----- Succeeding -----

  /** Where all earlier alternatives fail, the driver comes to a later one. */
  lemma ReachesAlternative(T: Tables, inp: seq<int>, m: Machine, ct: int, k: int, j: int) returns (i: nat)
    requires Sized(T) && m.path == [] && Alternative(T, ct, j) && First(T, ct) <= k <= j
    requires forall l :: Alternative(T, ct, l) && l < j ==> DoomedNext(T, inp, Pick(T, inp, m.cfg, ct, l))
    ensures Then(T, inp, Trying(T, inp, m, ct, k), i) == Trying(T, inp, m, ct, j)
    decreases j - k
  {
    hide Follow, Pick, Backtrack, FailsNext, Run, Then;
    ThenNone(T, inp, Trying(T, inp, m, ct, k));
    i := 0;
    if k < j {
      var n: nat :| FailsNext(T, inp, Pick(T, inp, m.cfg, ct, k), n);
      i := FailsOn(T, inp, m.(saves := m.saves + [Saved(m.cfg, k)]), Pick(T, inp, m.cfg, ct, k), n);
      NextTried(T, inp, m, ct, k);
      var l := ReachesAlternative(T, inp, m, ct, k + 1, j);
      ThenThen(T, inp, Trying(T, inp, m, ct, k), i, l);
      i := i + l;
    }
  }

  lemma NextTried(T: Tables, inp: seq<int>, m: Machine, ct: int, k: int)
    requires Sized(T) && m.path == [] && Alternative(T, ct, k + 1) && First(T, ct) <= k
    ensures Backtrack(T, inp, m.(saves := m.saves + [Saved(m.cfg, k)])) == Trying(T, inp, m, ct, k + 1)
  {
    var saves := m.saves + [Saved(m.cfg, k)];
    assert saves[..|saves| - 1] == m.saves;
  }

  /** The end of the search: without a conflict the input is accepted, with conflicts they are all met again, from the
      first one on. */
  ghost predicate Arrived(r: Result, saves: seq<Saved>) {
    if saves == [] then r.Accepted? else r == Running(Machine(saves[0].cfg, [], saves))
  }

  /** The driver comes to the first accepting resolution. */
  lemma {:induction false} ScriptArrives(T: Tables, inp: seq<int>, m: Machine, ks: seq<Saved>, n: nat) returns (k: nat)
    requires Sized(T) && m.path == [] && Script(T, inp, m.cfg, ks, n) && forall i :: 0 <= i < |ks| ==> SavedOk(T, inp, ks[i])
    ensures Arrived(Run(T, inp, m, k), m.saves + ks)
    decreases n, 0
  {
    match Act(T, inp, m.cfg)
    case Reduce(r) =>
      k := ScriptArrivesOn(T, inp, m, DoReduce(T, inp, m.cfg, r), ks, n - 1);
      StepThen(T, inp, m, k);
      k := k + 1;
    case Shift(v) =>
      k := ScriptArrivesOn(T, inp, m, DoShift(m.cfg, v), ks, n - 1);
      StepThen(T, inp, m, k);
      k := k + 1;
    case Conflict(ct) =>
      assert SavedOk(T, inp, ks[0]);
      k := ChoiceArrives(T, inp, m, ct, ks, n - 1);
      StepThen(T, inp, m, k);
      k := k + 1;
    case Error =>
  }

  lemma ChoiceArrives(T: Tables, inp: seq<int>, m: Machine, ct: int, ks: seq<Saved>, n: nat) returns (k: nat)
    requires Sized(T) && m.path == [] && AtConflict(T, inp, m.cfg) && Act(T, inp, m.cfg) == Conflict(ct) && 0 <= ct < |T.ctable|
    requires ks != [] && ks[0].cfg == m.cfg && ScriptNext(T, inp, Pick(T, inp, m.cfg, ct, ks[0].ctry), ks[1..], n)
    requires forall i :: 0 <= i < |ks| ==> SavedOk(T, inp, ks[i])
    ensures Arrived(Then(T, inp, Trying(T, inp, m, ct, First(T, ct)), k), m.saves + ks)
    decreases n, 2
  {
    hide *;
    var sv := ks[0];
    var i := ChoiceReached(T, inp, m, ct, sv);
    var m' := m.(saves := m.saves + [sv]);
    var j := ScriptArrivesOn(T, inp, m', Pick(T, inp, m.cfg, ct, sv.ctry), ks[1..], n);
    assert m'.saves + ks[1..] == m.saves + ks;
    ThenThen(T, inp, Trying(T, inp, m, ct, First(T, ct)), i, j);
    k := i + j;
  }

  lemma ChoiceReached(T: Tables, inp: seq<int>, m: Machine, ct: int, sv: Saved) returns (i: nat)
    requires Sized(T) && m.path == [] && SavedOk(T, inp, sv) && sv.cfg == m.cfg && Act(T, inp, m.cfg) == Conflict(ct) && 0 <= ct < |T.ctable|
    ensures Then(T, inp, Trying(T, inp, m, ct, First(T, ct)), i) == Follow(m.(saves := m.saves + [sv]), Pick(T, inp, m.cfg, ct, sv.ctry))
  {
    hide Pick, Follow, Then, Act, Backtrack, DoomedNext;
    i := ReachesAlternative(T, inp, m, ct, First(T, ct), sv.ctry);
    assert sv == Saved(m.cfg, sv.ctry);
  }

  lemma ScriptArrivesOn(T: Tables, inp: seq<int>, m: Machine, x: Next, ks: seq<Saved>, n: nat) returns (k: nat)
    requires Sized(T) && m.path == [] && ScriptNext(T, inp, x, ks, n) && forall i :: 0 <= i < |ks| ==> SavedOk(T, inp, ks[i])
    ensures Arrived(Then(T, inp, Follow(m, x), k), m.saves + ks)
    decreases n, 1
  {
    k := 0;
    if x.Goes? {
      k := ScriptArrives(T, inp, m.(cfg := x.cfg), ks, n);
    } else {
      assert m.saves + ks == m.saves;
    }
  }

  // ----- What is searched -----

  /** Every resolution of the conflicts has accepted or failed within `n` steps from `c`. */
  ghost predicate Ends(T: Tables, inp: seq<int>, c: Config, n: nat)
    requires Sized(T)
    decreases n, 0
  {
    n > 0 && HasState(T, c) &&
    match Act(T, inp, c)
    case Reduce(r) => EndsNext(T, inp, DoReduce(T, inp, c, r), n - 1)
    case Shift(v) => EndsNext(T, inp, DoShift(c, v), n - 1)
    case Conflict(ct) => Listed(T, ct) && forall k :: Alternative(T, ct, k) ==> EndsNext(T, inp, Pick(T, inp, c, ct, k), n - 1)
    case Error => true
  }

  ghost predicate EndsNext(T: Tables, inp: seq<int>, x: Next, n: nat)
    requires Sized(T)
    decreases n, 1
  {
    match x
    case Accepts(_) => true
    case Goes(c) => Ends(T, inp, c, n)
    case Crashes => false
  }

  /** Then there is a first one that accepts, or all of them fail. */
  lemma {:induction false} EndsFindsOrFails(T: Tables, inp: seq<int>, c: Config, n: nat)
    requires Sized(T) && Ends(T, inp, c, n)
    ensures Finds(T, inp, c) || Fails(T, inp, c, n)
    decreases n, 0, 0
  {
    match Act(T, inp, c)
    case Reduce(r) => EndsNextDecided(T, inp, DoReduce(T, inp, c, r), n - 1); FindsBack(T, inp, c);
    case Shift(v) => EndsNextDecided(T, inp, DoShift(c, v), n - 1); FindsBack(T, inp, c);
    case Conflict(ct) =>
      var e :| ListEnds(T, ct, e);
      AlternativesDecided(T, inp, c, ct, First(T, ct), e, n - 1);
    case Error =>
  }

  ghost predicate FindsNext(T: Tables, inp: seq<int>, x: Next)
    requires Sized(T)
  {
    match x
    case Accepts(_) => true
    case Goes(c) => Finds(T, inp, c)
    case Crashes => false
  }

  lemma EndsNextDecided(T: Tables, inp: seq<int>, x: Next, n: nat)
    requires Sized(T) && EndsNext(T, inp, x, n)
    ensures FindsNext(T, inp, x) || FailsNext(T, inp, x, n)
    decreases n, 1, 0
  {
    if x.Goes? { EndsFindsOrFails(T, inp, x.cfg, n); }
  }

  lemma FindsBack(T: Tables, inp: seq<int>, c: Config)
    requires Sized(T) && HasState(T, c) && Quiet(T, inp, c).Some?
    ensures FindsNext(T, inp, Quiet(T, inp, c).value) ==> Finds(T, inp, c)
  {
    match Quiet(T, inp, c).value
    case Accepts(_) =>
      assert Script(T, inp, c, [], 1);
      assert Found(T, inp, c, []);
    case Goes(d) =>
      if Finds(T, inp, d) {
        var ks :| Found(T, inp, d, ks);
        var n: nat :| Script(T, inp, d, ks, n);
        assert Script(T, inp, c, ks, n + 1);
        assert Found(T, inp, c, ks);
      }
    case Crashes =>
  }

  lemma AlternativesDecided(T: Tables, inp: seq<int>, c: Config, ct: int, k: int, e: int, n: nat)
    requires Sized(T) && HasState(T, c) && Act(T, inp, c) == Conflict(ct) && 0 <= ct < |T.ctable| && ListEnds(T, ct, e) && First(T, ct) <= k <= e
    requires forall j :: Alternative(T, ct, j) ==> EndsNext(T, inp, Pick(T, inp, c, ct, j), n)
    requires forall j :: Alternative(T, ct, j) && j < k ==> FailsNext(T, inp, Pick(T, inp, c, ct, j), n)
    ensures Finds(T, inp, c) || Fails(T, inp, c, n + 1)
    decreases n, 2, e - k
  {
    if k == e {
      forall j | Alternative(T, ct, j) ensures FailsNext(T, inp, Pick(T, inp, c, ct, j), n) {}
    } else {
      assert Alternative(T, ct, k);
      EndsNextDecided(T, inp, Pick(T, inp, c, ct, k), n);
      if FindsNext(T, inp, Pick(T, inp, c, ct, k)) {
        FindsByChoice(T, inp, Saved(c, k));
      } else {
        AlternativesDecided(T, inp, c, ct, k + 1, e, n);
      }
    }
  }

  lemma FindsByChoice(T: Tables, inp: seq<int>, sv: Saved)
    requires Sized(T) && SavedOk(T, inp, sv) && FindsNext(T, inp, After(T, inp, sv))
    ensures Finds(T, inp, sv.cfg)
  {
    var x := After(T, inp, sv);
    var ks := [];
    var n: nat := 0;
    if x.Goes? {
      ks :| Found(T, inp, x.cfg, ks);
      n :| Script(T, inp, x.cfg, ks, n);
    }
    var all := [sv] + ks;
    assert all[1..] == ks;
    assert Script(T, inp, sv.cfg, all, n + 1);
    assert Found(T, inp, sv.cfg, all);
  }

  // ----- Main results -----

  /** The driver reports a syntax error, after however many passes, if and only if all resolutions fail within a bound. */
  lemma SyntaxErrorIffDoomed(T: Tables, inp: seq<int>)
    requires Sized(T)
    ensures (exists n: nat :: Run(T, inp, Start(), n).SyntaxError?) <==> Doomed(T, inp, Start().cfg)
  {
    if exists n: nat :: Run(T, inp, Start(), n).SyntaxError? {
      var n: nat :| Run(T, inp, Start(), n).SyntaxError?;
      RunMeans(T, inp, n);
    }
    if Doomed(T, inp, Start().cfg) {
      var n: nat :| Fails(T, inp, Start().cfg, n);
      var k := FailsReturns(T, inp, Start(), n);
      assert Run(T, inp, Start(), k).SyntaxError?;
    }
  }

  /** It accepts if and only if there is a first accepting resolution: one at each of whose conflicts all earlier
      alternatives fail within a bound. */
  lemma AcceptsIffFinds(T: Tables, inp: seq<int>)
    requires Sized(T)
    ensures (exists n: nat :: Run(T, inp, Start(), n).Accepted?) <==> Finds(T, inp, Start().cfg)
  {
    if exists n: nat :: Run(T, inp, Start(), n).Accepted? {
      var n: nat :| Run(T, inp, Start(), n).Accepted?;
      RunMeans(T, inp, n);
    }
    if Finds(T, inp, Start().cfg) {
      var ks :| Found(T, inp, Start().cfg, ks);
      var k, n := FirstResolution(T, inp, ks);
    }
  }

  /** The first accepting resolution is the one that is found, and if it has conflicts a second pass, from the first of
      them on, is to meet exactly these; without a conflict there is no second pass. */
  lemma FirstResolution(T: Tables, inp: seq<int>, ks: seq<Saved>) returns (k: nat, n: nat)
    requires Sized(T) && Found(T, inp, Start().cfg, ks)
    ensures ks != [] ==> Run(T, inp, Start(), k) == Running(Machine(ks[0].cfg, [], ks))
    ensures k <= n && Run(T, inp, Start(), n).Accepted?
  {
    var l: nat :| Script(T, inp, Start().cfg, ks, l);
    k := ScriptArrives(T, inp, Start(), ks, l);
    n := k;
    assert [] + ks == ks;
    if ks != [] {
      var j := SecondPassAccepts(T, inp, k);
      RunThen(T, inp, Start(), k, j);
      n := k + j;
    }
  }

  /** Where all resolutions end, so does the driver. */
  lemma SearchEnds(T: Tables, inp: seq<int>, bound: nat) returns (n: nat)
    requires Sized(T) && Ends(T, inp, Start().cfg, bound)
    ensures Run(T, inp, Start(), n).Accepted? || Run(T, inp, Start(), n).SyntaxError?
  {
    EndsFindsOrFails(T, inp, Start().cfg, bound);
    if Finds(T, inp, Start().cfg) {
      AcceptsIffFinds(T, inp);
      n :| Run(T, inp, Start(), n).Accepted?;
    } else {
      assert Doomed(T, inp, Start().cfg);
      SyntaxErrorIffDoomed(T, inp);
      n :| Run(T, inp, Start(), n).SyntaxError?;
    }
  }

  /** No run accepts inside a trial. */
  lemma NoAcceptInTrial(T: Tables, inp: seq<int>, n: nat)
    requires Sized(T) && Run(T, inp, Start(), n).Running? && Run(T, inp, Start(), n + 1).Accepted?
    ensures Run(T, inp, Start(), n).m.saves == []
  {
    var m := Run(T, inp, Start(), n).m;
    RunThen(T, inp, Start(), n, 1);
    assert Run(T, inp, m, 1) == Then(T, inp, Step(T, inp, m), 0);
    BacktrackNotAccepts(T, inp, m);
  }

  lemma {:induction false} BacktrackNotAccepts(T: Tables, inp: seq<int>, m: Machine)
    requires Sized(T)
    ensures !Backtrack(T, inp, m).Accepted?
    decreases |m.saves|
  {
    if m.saves != [] {
      var older, sv := m.saves[..|m.saves| - 1], m.saves[|m.saves| - 1];
      BacktrackNotAccepts(T, inp, Machine(sv.cfg, older, m.path));
    }
  }

  /** A run that has saved a conflict and accepts has made a second pass in between, from the first saved conflict on. */
  lemma {:induction false} SecondPassMade(T: Tables, inp: seq<int>, i: nat, n: nat) returns (j: nat)
    requires Sized(T) && i <= n && Run(T, inp, Start(), n).Accepted?
    requires Run(T, inp, Start(), i).Running? && Run(T, inp, Start(), i).m.saves != []
    ensures i < j < n && Run(T, inp, Start(), j).Running? && Run(T, inp, Start(), j).m.saves == []
    ensures Run(T, inp, Start(), j).m.path != [] && Run(T, inp, Start(), j).m.cfg == Run(T, inp, Start(), j).m.path[0].cfg
    decreases n - i
  {
    var m := Run(T, inp, Start(), i).m;
    ReachableRefl(T, inp, Start().cfg);
    RunKeeps(T, inp, Start().cfg, Start(), i);
    RunThen(T, inp, Start(), i, n - i);
    RunThen(T, inp, Start(), i, 1);
    assert Run(T, inp, m, 1) == Then(T, inp, Step(T, inp, m), 0);
    TrialStep(T, inp, m);
    if Step(T, inp, m).m.saves != [] {
      j := SecondPassMade(T, inp, i + 1, n);
    } else {
      j := i + 1;
    }
  }

  /** A pass inside a trial: the trial goes on, a second pass begins, or the run ends without accepting. */
  lemma TrialStep(T: Tables, inp: seq<int>, m: Machine)
    requires Sized(T) && m.saves != [] && m.path == []
    ensures match Step(T, inp, m)
            case Running(m') => m'.saves != [] || (m'.path != [] && m'.cfg == m'.path[0].cfg)
            case Accepted(_) => false
            case _ => true
  {
    BacktrackStays(T, inp, m);
  }

  lemma {:induction false} BacktrackStays(T: Tables, inp: seq<int>, m: Machine)
    requires Sized(T) && m.path == []
    ensures match Backtrack(T, inp, m)
            case Running(m') => m'.saves != [] || (m'.path != [] && m'.cfg == m'.path[0].cfg)
            case Accepted(_) => false
            case _ => true
    decreases |m.saves|
  {
    if m.saves != [] {
      var older, sv := m.saves[..|m.saves| - 1], m.saves[|m.saves| - 1];
      BacktrackStays(T, inp, Machine(sv.cfg, older, m.path));
    }
  }
}
