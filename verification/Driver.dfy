/** The driver of skeleton.c with its growing state stack, its lexeme queue and its chains of
    saved states. Every pass of its loop does exactly one step of DriverMachine: the queue
    replays the tokens that a backtrack or the second pass has to read again. */
module Driver {
  import opened Grammars
  import opened Automata
  import opened DriverMachine
  import opened DriverSearch
  import opened DriverSound

  const YYSTACKGROWTH := 16
  const YYDEFSTACKSIZE := 12

  /** A saved parser state: state number, copy of the state stack, index of the conflict lexeme in
      the queue, and the alternative being tried. */
  datatype ParseState = ParseState(state: int, stack: seq<int>, lexeme: nat, ctry: int)

  /** How a pass of the loop ends: back at the top, `return 0`, `return 1`, or at the report of a syntax error. */
  datatype Status = Continue | Accept | Abort | Fail

  /** A saved state stands for a saved configuration: lexemes count from input position `base`, lie in the
      queue, and its stack fits where it will be copied back. */
  ghost predicate Stands(ps: ParseState, sv: Saved, base: nat, end: nat, room: nat) {
    && ps.stack == sv.cfg.stack && 0 < |ps.stack| <= room && ps.state == ps.stack[|ps.stack| - 1]
    && base + ps.lexeme == sv.cfg.pos && ps.lexeme <= end
    && ps.ctry == sv.ctry
  }

  ghost predicate AllStand(pss: seq<ParseState>, svs: seq<Saved>, base: nat, end: nat, room: nat) {
    |pss| == |svs| && forall k :: 0 <= k < |pss| ==> Stands(pss[k], svs[k], base, end, room)
  }

  class Parser {
    const T: Tables
    /** The values `yylex` delivers. */
    const inp: seq<int>
    /** How many it has delivered. */
    var read: nat

    var ss: array<int>          // state stack
    var ssp: nat                // index of its top
    var yychar: int             // lookahead, or -1
    var lexemes: array<int>     // lexeme queue
    var lvp: nat                // next lexeme to replay
    var lve: nat                // end of the queue
    var saves: seq<ParseState>  // yyps->save chain, oldest first
    var path: seq<ParseState>   // yypath chain, next first

    /** The machine this parser implements. */
    ghost var M: Machine
    /** Input position of the first lexeme in the queue. */
    ghost var base: nat

    /** Input position of the next value YYLex1 will return. */
    ghost function Upcoming(): nat
      reads this
    {
      if lvp < lve then base + lvp else read
    }

    ghost predicate StackOk()
      reads this, ss
    {
      && ssp < ss.Length && |M.cfg.stack| == ssp + 1
      && forall k :: 0 <= k <= ssp ==> ss[k] == M.cfg.stack[k]
    }

    ghost predicate QueueOk()
      reads this, lexemes
    {
      && lvp <= lve <= lexemes.Length && lexemes.Length > 0
      && (forall k :: 0 <= k < lve ==> Norm(lexemes[k]) == Token(inp, base + k))
      && (saves != [] || lvp < lve ==> read == base + lve)
      && (yychar < 0 ==> Upcoming() == M.cfg.pos)
      && (yychar >= 0 ==> yychar == Token(inp, M.cfg.pos) && Upcoming() == M.cfg.pos + 1)
      && (yychar >= 0 && (saves != [] || lvp < lve) ==> lvp > 0)
    }

    ghost predicate Valid()
      reads this, ss, lexemes
    {
      && Sized(T) && ss != lexemes
      && StackOk() && QueueOk()
      && AllStand(saves, M.saves, base, lve, ss.Length) && AllStand(path, M.path, base, lve, ss.Length)
    }

    constructor (T: Tables, inp: seq<int>)
      requires Sized(T)
      ensures Valid() && M == Start() && this.T == T && this.inp == inp
      ensures fresh(ss) && fresh(lexemes)
    {
      this.T := T;
      this.inp := inp;
      read := 0;
      ss := new int[YYDEFSTACKSIZE + 4](_ => 0);
      ssp := 0;
      yychar := -1;
      lexemes := new int[YYSTACKGROWTH];
      lvp, lve := 0, 0;
      saves, path := [], [];
      M := Start();
      base := 0;
    }

    /** YYMoreStack: a larger block with the same contents. */
    method MoreStack()
      requires Valid()
      modifies `ss
      ensures Valid() && fresh(ss) && ss.Length == old(ss.Length) + YYSTACKGROWTH
    {
      var bigger := new int[ss.Length + YYSTACKGROWTH];
      forall k | 0 <= k < ss.Length { bigger[k] := ss[k]; }
      ss := bigger;
    }

    /** The push at yyshift and after a reduction. */
    method Push(s: int)
      requires Valid()
      modifies `ss, `ssp, ss, `M
      ensures Valid() && (ss == old(ss) || fresh(ss))
      ensures M == old(M).(cfg := old(M).cfg.(stack := old(M).cfg.stack + [s]))
    {
      if ssp >= ss.Length - 1 {
        MoreStack();
      }
      ssp := ssp + 1;
      ss[ssp] := s;
      M := M.(cfg := M.cfg.(stack := M.cfg.stack + [s]));
    }

    /** The lexer. */
    method YYLex() returns (c: int)
      modifies `read
      ensures c == Raw(inp, old(read)) && read == old(read) + 1
    {
      c := if read < |inp| then inp[read] else 0;
      read := read + 1;
    }

    /** YYLex1: replay the queue, then read on, recording what is read during a trial. */
    method YYLex1() returns (c: int)
      requires Valid() && yychar < 0
      modifies `read, `lvp, `lve, `lexemes, lexemes
      ensures Norm(c) == Token(inp, M.cfg.pos)
      ensures lexemes == old(lexemes) || fresh(lexemes)
      ensures Sized(T) && ss != lexemes && StackOk() && lvp <= lve <= lexemes.Length && lexemes.Length > 0
      ensures forall k :: 0 <= k < lve ==> Norm(lexemes[k]) == Token(inp, base + k)
      ensures saves != [] || lvp < lve ==> read == base + lve && lvp > 0
      ensures Upcoming() == M.cfg.pos + 1 && lve >= old(lve)
    {
      if lvp < lve {
        c := lexemes[lvp];
        lvp := lvp + 1;
      } else if saves != [] {
        if lvp == lexemes.Length {
          Expand();
        }
        c := YYLex();
        lexemes[lvp] := c;
        lvp := lvp + 1;
        lve := lve + 1;
      } else {
        c := YYLex();
      }
    }

    /** yyexpand: a larger queue with the same lexemes. */
    method Expand()
      requires Valid() && lvp == lve == lexemes.Length
      modifies `lexemes
      ensures Valid() && fresh(lexemes) && lexemes.Length == old(lexemes.Length) + YYSTACKGROWTH
    {
      var bigger := new int[lexemes.Length + YYSTACKGROWTH];
      forall k | 0 <= k < lexemes.Length { bigger[k] := lexemes[k]; }
      lexemes := bigger;
    }

    /** Makes sure there is a lookahead. */
    method ReadToken()
      requires Valid()
      modifies `yychar, `read, `lvp, `lve, `lexemes, lexemes
      ensures Valid() && yychar == Token(inp, M.cfg.pos)
      ensures lexemes == old(lexemes) || fresh(lexemes)
    {
      if yychar < 0 {
        yychar := YYLex1();
        if yychar < 0 { yychar := 0; }
      }
    }
  
    /** The meaning of a status, given what the machine does. */
    ghost predicate Outcome(r: Result, st: Status)
      reads this, ss, lexemes
    {
      match r
      case Running(m) => st == Continue && Valid() && M == m
      case Accepted(_) => st == Accept
      case Aborted => st == Abort
      case SyntaxError => st == Fail
      case Crashed => false
    }

    /** Copies a saved stack back and winds the queue back to its lexeme. */
    method Restore(ps: ParseState, ghost sv: Saved)
      requires Valid() && Stands(ps, sv, base, lve, ss.Length) && read == base + lve
      modifies `ssp, ss, `yychar, `lvp, `M
      ensures Valid() && yychar == -1 && M == old(M).(cfg := sv.cfg)
    {
      for k := 0 to |ps.stack|
        modifies ss
        invariant forall j :: 0 <= j < k ==> ss[j] == ps.stack[j]
      {
        ss[k] := ps.stack[k];
      }
      ssp := |ps.stack| - 1;
      lvp := ps.lexeme;
      yychar := -1;
      M := M.(cfg := sv.cfg);
    }

    /** yyvalid and yyaccept: a trial hands its saved states, oldest first, to the second pass. */
    method Accepting(ghost done: Config) returns (st: Status)
      requires Valid()
      requires M.cfg == done
      modifies this, ss
      ensures ss == old(ss) && lexemes == old(lexemes)
      ensures Outcome(OnAccept(old(M), done), st)
    {
      if saves == [] {
        return Accept;
      }
      if path != [] {
        return Abort;
      }
      ghost var m := M;
      assert read == base + lve;
      HandOver();
      Restore(path[0], M.path[0]);
      return Continue;
    }

    /** The loop of yyvalid: the newest save is moved first, so the oldest ends up in front. */
    method HandOver()
      requires Valid() && path == []
      modifies `saves, `path, `M
      ensures Valid() && saves == [] && path == old(saves)
      ensures M == old(M).(saves := [], path := old(M.saves))
    {
      ghost var all := saves;
      while saves != []
        modifies `saves, `path
        invariant saves + path == all && |saves| <= |all|
        decreases |saves|
      {
        var sv := saves[|saves| - 1];
        saves := saves[..|saves| - 1];
        path := [sv] + path;
      }
      M := M.(saves := [], path := M.saves);
    }

    /** The stack part of yyreduce. */
    method Pop(yym: nat)
      requires Valid() && yym <= ssp
      modifies `ssp, `ss, `M
      ensures Valid() && (ss == old(ss) || fresh(ss)) && ssp < ss.Length - 1
      ensures M == old(M).(cfg := old(M).cfg.(stack := old(M).cfg.stack[..|old(M).cfg.stack| - yym]))
    {
      if ssp + 1 - yym >= ss.Length {
        MoreStack();
      }
      ssp := ssp - yym;
      M := M.(cfg := M.cfg.(stack := M.cfg.stack[..|M.cfg.stack| - yym]));
    }

    /** A reduction to the goal on top of state 0: enter YYFINAL, and accept at the end of the input. */
    method Final() returns (st: Status)
      requires Valid() && ssp < ss.Length - 1
      modifies this, ss, lexemes
      ensures (ss == old(ss) || fresh(ss)) && (lexemes == old(lexemes) || fresh(lexemes))
      ensures var done := old(M).cfg.(stack := old(M).cfg.stack + [T.final]);
              Outcome(Follow(old(M), if Token(inp, done.pos) == 0 then Accepts(done) else Goes(done)), st)
    {
      ssp := ssp + 1;
      ss[ssp] := T.final;
      M := M.(cfg := M.cfg.(stack := M.cfg.stack + [T.final]));
      ghost var m := M;
      ReadToken();
      if yychar == 0 {
        st := Accepting(M.cfg);
      } else {
        st := Continue;
      }
    }

    /** yyreduce. */
    method ReduceBy(n: int) returns (st: Status)
      requires Valid() && !DoReduce(T, inp, M.cfg, n).Crashes?
      modifies this, ss, lexemes
      ensures (ss == old(ss) || fresh(ss)) && (lexemes == old(lexemes) || fresh(lexemes))
      ensures Outcome(Follow(old(M), DoReduce(T, inp, old(M).cfg, n)), st)
    {
      var yym := T.len[n];
      Pop(yym);
      var yystate := ss[ssp];
      if yystate == 0 && T.lhs[n] == 0 {
        st := Final();
      } else {
        Push(Goto(T, yystate, T.lhs[n]));
        st := Continue;
      }
    }

    /** yyshift: the lookahead is used up. */
    method Shift(v: int)
      requires Valid() && yychar >= 0
      modifies `ss, `ssp, ss, `yychar, `M
      ensures Valid() && (ss == old(ss) || fresh(ss))
      ensures M == old(M).(cfg := Config(old(M).cfg.stack + [v], old(M).cfg.pos + 1))
    {
      yychar := -1;
      M := M.(cfg := M.cfg.(pos := M.cfg.pos + 1));
      Push(v);
    }

    /** The first save of a trial opens the queue with the lookahead in it. */
    method OpenQueue()
      requires Valid() && saves == [] && path == [] && yychar >= 0 && lvp == lve
      modifies `yychar, `lvp, `lve, lexemes, `base
      ensures Valid() && yychar == -1 && lvp < lve
    {
      base := M.cfg.pos;
      lexemes[0] := yychar;
      lvp, lve := 0, 1;
      yychar := -1;
    }

    /** A later one puts the lookahead back, to be read from the queue again. */
    method PutBack()
      requires Valid() && yychar >= 0 && (saves != [] || lvp < lve)
      modifies `yychar, `lvp
      ensures Valid() && yychar == -1 && lvp < lve
    {
      lvp := lvp - 1;
      yychar := -1;
    }

    /** At a conflict with no path to follow: save the state, put the lookahead (back) into the queue. */
    method SaveConflict(ctry: int)
      requires Valid() && path == [] && yychar >= 0
      modifies `saves, `yychar, `lvp, `lve, lexemes, `M, `base
      ensures Valid() && yychar == -1 && lvp < lve && saves != []
      ensures M == old(M).(saves := old(M).saves + [Saved(old(M).cfg, ctry)])
    {
      if saves == [] {
        if lvp == lve {
          OpenQueue();
        }
      }
      if yychar >= 0 {
        PutBack();
      }
      Remember(ctry);
    }

    method Remember(ctry: int)
      requires Valid() && yychar == -1 && lvp < lve
      modifies `saves, `M
      ensures Valid() && saves != []
      ensures M == old(M).(saves := old(M).saves + [Saved(old(M).cfg, ctry)])
    {
      saves := saves + [ParseState(ss[ssp], ss[..ssp + 1], lvp, ctry)];
      M := M.(saves := M.saves + [Saved(M.cfg, ctry)]);
    }

    /** Taking the alternative `ctry` of conflict entry `ct`. */
    method Take(ct: int, ctry: int) returns (st: Status)
      requires Valid() && !Pick(T, inp, M.cfg, ct, ctry).Crashes?
      requires yychar >= 0 || lvp < lve
      modifies this, ss, lexemes
      ensures (ss == old(ss) || fresh(ss)) && (lexemes == old(lexemes) || fresh(lexemes))
      ensures Outcome(Follow(old(M), Pick(T, inp, old(M).cfg, ct, ctry)), st)
    {
      if ct == ctry {
        if yychar < 0 { lvp := lvp + 1; }
        yychar := -1;
        M := M.(cfg := M.cfg.(pos := M.cfg.pos + 1));
        Push(T.ctable[ctry]);
        st := Continue;
      } else {
        st := ReduceBy(T.ctable[ctry]);
      }
    }

    /** The conflict branch of the main loop. */
    method AtConflict(ct: int) returns (st: Status)
      requires Valid() && yychar >= 0 && HasState(T, M.cfg)
      requires T.defred[Top(M.cfg)] == 0 && Lookup(T, T.cindex[Top(M.cfg)], yychar) == Some(ct)
      requires !Step(T, inp, M).Crashed?
      modifies this, ss, lexemes
      ensures (ss == old(ss) || fresh(ss)) && (lexemes == old(lexemes) || fresh(lexemes))
      ensures Outcome(Step(T, inp, old(M)), st)
    {
      assert Act(T, inp, M.cfg) == Conflict(ct);
      var ctry: int;
      if path != [] {
        var save := path[0];
        path := path[1..];
        ghost var sv := M.path[0];
        M := M.(path := M.path[1..]);
        ctry := save.ctry;
        if save.state != ss[ssp] {
          return Abort;
        }
      } else {
        ctry := if T.ctable[ct] == -1 then ct + 1 else ct;
        SaveConflict(ctry);
      }
      st := Take(ct, ctry);
    }

    /** Back to the newest conflict, whose next alternative comes up. */
    method Rewind() returns (ctry: int)
      requires Valid() && saves != []
      modifies `saves, `ssp, ss, `yychar, `lvp, `M
      ensures Valid() && |saves| == |old(saves)| && path == old(path)
      ensures var older, sv := old(M).saves[..|old(M).saves| - 1], old(M).saves[|old(M).saves| - 1];
              && ctry == sv.ctry + 1
              && M == Machine(sv.cfg, older + [Saved(sv.cfg, ctry)], old(M).path)
    {
      var save := saves[|saves| - 1];
      ghost var sv := M.saves[|saves| - 1];
      Restore(save, sv);
      ctry := save.ctry + 1;
      saves := saves[|saves| - 1 := save.(ctry := ctry)];
      M := M.(saves := M.saves[..|M.saves| - 1] + [Saved(sv.cfg, ctry)]);
    }

    /** Frees the newest saved state. */
    method DropSave()
      requires Valid() && saves != []
      modifies `saves, `M
      ensures Valid() && |saves| == |old(saves)| - 1
      ensures M == old(M).(saves := old(M).saves[..|old(M).saves| - 1])
    {
      saves := saves[..|saves| - 1];
      M := M.(saves := M.saves[..|M.saves| - 1]);
    }

    /** yyerrhandler: back to the newest conflict that has another alternative. */
    method BacktrackAll() returns (st: Status)
      requires Valid() && !Backtrack(T, inp, M).Crashed?
      modifies this, ss, lexemes
      ensures (ss == old(ss) || fresh(ss)) && (lexemes == old(lexemes) || fresh(lexemes))
      ensures Outcome(Backtrack(T, inp, old(M)), st)
    {
      while saves != []
        invariant Valid() && Backtrack(T, inp, M) == Backtrack(T, inp, old(M))
        invariant ss == old(ss) && lexemes == old(lexemes)
        decreases |saves|
      {
        var ctry := Rewind();
        if T.ctable[ctry] >= 0 {
          st := ReduceBy(T.ctable[ctry]);
          return;
        }
        DropSave();
      }
      st := Fail;
    }

    /** One pass of the main parsing loop. */
    method Loop() returns (st: Status)
      requires Valid() && !Step(T, inp, M).Crashed?
      modifies this, ss, lexemes
      ensures (ss == old(ss) || fresh(ss)) && (lexemes == old(lexemes) || fresh(lexemes))
      ensures Outcome(Step(T, inp, old(M)), st)
    {
      var yystate := ss[ssp];
      if T.defred[yystate] != 0 {
        st := ReduceBy(T.defred[yystate]);
        return;
      }
      ReadToken();
      match Lookup(T, T.cindex[yystate], yychar) {
        case Some(ct) =>
          st := AtConflict(ct);
        case None =>
          match Lookup(T, T.sindex[yystate], yychar) {
            case Some(v) =>
              Shift(v);
              st := Continue;
            case None =>
              match Lookup(T, T.rindex[yystate], yychar) {
                case Some(n) => st := ReduceBy(n);
                case None => st := BacktrackAll();
              }
          }
      }
    }

    /** yyparse, stopped after `n` passes of its loop: the same as `n` steps of the machine. */
    method Parse(n: nat) returns (st: Status)
      requires Valid() && M == Start()
      requires forall k: nat :: !Run(T, inp, Start(), k).Crashed?
      modifies this, ss, lexemes
      ensures Outcome(Run(T, inp, Start(), n), st)
    {
      st := Continue;
      var k := 0;
      while k < n && st == Continue
        invariant 0 <= k <= n && Outcome(Run(T, inp, Start(), k), st)
        invariant (ss == old(ss) || fresh(ss)) && (lexemes == old(lexemes) || fresh(lexemes))
        invariant st != Continue ==> Run(T, inp, Start(), n) == Run(T, inp, Start(), k)
        decreases n - k
      {
        ghost var m := M;
        RunOneMore(T, inp, Start(), k);
        st := Loop();
        k := k + 1;
        if st != Continue {
          RunStops(T, inp, Start(), k, n);
        }
      }
    }
  }

  /** What yyparse has come to when the machine has. */
  function StatusOf(r: Result): Status {
    match r
    case Running(_) => Continue
    case Accepted(_) => Accept
    case SyntaxError => Fail
    case _ => Abort
  }

  function Norm(c: int): int { if c < 0 then 0 else c }

  lemma {:induction false} RunOneMore(T: Tables, inp: seq<int>, m: Machine, k: nat)
    requires Sized(T) && Run(T, inp, m, k).Running?
    ensures Run(T, inp, m, k + 1) == Step(T, inp, Run(T, inp, m, k).m)
    decreases k
  {
    if k > 0 {
      RunOneMore(T, inp, Step(T, inp, m).m, k - 1);
    } else {
      assert Run(T, inp, m, 1) == match Step(T, inp, m) case Running(m') => Run(T, inp, m', 0) case r => r;
    }
  }

  lemma {:induction false} RunStops(T: Tables, inp: seq<int>, m: Machine, k: nat, n: nat)
    requires Sized(T) && k <= n && !Run(T, inp, m, k).Running?
    ensures Run(T, inp, m, n) == Run(T, inp, m, k)
    decreases k
  {
    match Step(T, inp, m)
    case Running(m') => RunStops(T, inp, m', k - 1, n - 1);
    case _ =>
  }

  /** The driver with tables that encode the grammar's automaton does what the machine does; it never leaves an array
      and never aborts; if it accepts, the input
      up to its end marker is derived from the goal; if it reports a syntax error, no way of resolving the conflicts
      would have accepted. Module Generator makes such tables, and says when an error means that no derivation
      exists. */
  method ParseInput(T: Tables, inp: seq<int>, n: nat, ghost G: Grammar, ghost A: Automaton, ghost val: seq<int>)
      returns (st: Status)
    requires Encodes(T, G, A, val)
    ensures st == StatusOf(Run(T, inp, Start(), n)) && st != Abort
    ensures st == Accept ==> exists pos: nat :: Derivable(G, val, inp, pos) && Token(inp, pos) == 0
    ensures st == Accept ==> exists k: nat :: CanAccept(T, inp, Start().cfg, k)
    ensures st == Fail ==> forall k: nat :: !CanAccept(T, inp, Start().cfg, k)
  {
    var p := new Parser(T, inp);
    forall k: nat ensures !Run(T, inp, Start(), k).Crashed? {
      DriverIsSound(T, G, A, val, inp, k);
    }
    st := p.Parse(n);
    DriverIsSound(T, G, A, val, inp, n);
    SearchIsExact(T, inp, n);
  }
}
