/** The driver of skeleton.c as a machine over (state stack, input position):
    table lookup, shift, reduce, conflict choice, backtracking, and the second
    pass that follows a successful trial. The lexeme queue is not visible here;
    module Driver shows that it implements input positions. */
module DriverMachine {

  /** The tables printed by output.c, as the driver indexes them. */
  datatype Tables = Tables(
    lhs: seq<int>, len: seq<nat>, defred: seq<int>, dgoto: seq<int>,
    sindex: seq<int>, rindex: seq<int>, cindex: seq<int>, gindex: seq<int>,
    table: seq<int>, check: seq<int>, ctable: seq<int>, size: nat, final: nat)

  /** The arrays have the sizes output.c gives them. */
  ghost predicate Sized(T: Tables) {
    && |T.defred| == |T.sindex| == |T.rindex| == |T.cindex|
    && |T.lhs| == |T.len|
    && |T.gindex| == |T.dgoto|
    && |T.table| == |T.check| == T.size + 1
  }

  datatype Option<T> = None | Some(value: T)

  /** The driver's row access: entry `c` of the packed row with the given base. */
  function Lookup(T: Tables, base: int, c: int): Option<int>
    requires Sized(T)
  {
    if base != 0 && 0 <= base + c <= T.size && T.check[base + c] == c then Some(T.table[base + c]) else None
  }

  function Goto(T: Tables, state: int, symbol: int): int
    requires Sized(T) && 0 <= symbol < |T.gindex|
  {
    match Lookup(T, T.gindex[symbol], state)
    case Some(s) => s
    case None => T.dgoto[symbol]
  }

  /** What `yylex` returns as its `p`-th value: past the end it keeps returning 0. */
  function Raw(inp: seq<int>, p: nat): int {
    if p < |inp| then inp[p] else 0
  }

  /** The token the driver sees: negative values mean end of input too. */
  function Token(inp: seq<int>, p: nat): nat {
    if Raw(inp, p) < 0 then 0 else Raw(inp, p)
  }

  /** State stack (bottom first) and number of tokens shifted. */
  datatype Config = Config(stack: seq<int>, pos: nat)

  datatype Move = Reduce(rule: int) | Shift(target: int) | Conflict(entry: int) | Error

  predicate HasState(T: Tables, c: Config) {
    |c.stack| > 0 && 0 <= c.stack[|c.stack| - 1] < |T.defred|
  }

  function Top(c: Config): int
    requires |c.stack| > 0
  {
    c.stack[|c.stack| - 1]
  }

  /** The action selected by the tables. */
  function Act(T: Tables, inp: seq<int>, c: Config): Move
    requires Sized(T) && HasState(T, c)
  {
    var s := Top(c);
    var a := Token(inp, c.pos);
    if T.defred[s] != 0 then Reduce(T.defred[s])
    else match Lookup(T, T.cindex[s], a)
      case Some(ct) => Conflict(ct)
      case None =>
        match Lookup(T, T.sindex[s], a)
        case Some(v) => Shift(v)
        case None =>
          match Lookup(T, T.rindex[s], a)
          case Some(n) => Reduce(n)
          case None => Error
  }

  /** The effect of one action; `Crashes` is an access outside an array. */
  datatype Next = Goes(cfg: Config) | Accepts(cfg: Config) | Crashes

  function DoShift(c: Config, v: int): Next {
    Goes(Config(c.stack + [v], c.pos + 1))
  }

  function DoReduce(T: Tables, inp: seq<int>, c: Config, n: int): Next
    requires Sized(T)
  {
    if !(0 <= n < |T.len|) || |c.stack| <= T.len[n] then Crashes
    else
      var rest := c.stack[..|c.stack| - T.len[n]];
      var q := rest[|rest| - 1];
      if q == 0 && T.lhs[n] == 0 then
        var done := Config(rest + [T.final], c.pos);
        if Token(inp, c.pos) == 0 then Accepts(done) else Goes(done)
      else if !(0 <= T.lhs[n] < |T.gindex|) then Crashes
      else Goes(Config(rest + [Goto(T, q, T.lhs[n])], c.pos))
  }

  /** The first alternative of a conflict entry: a leading -1 says that there is no shift. */
  function First(T: Tables, ct: int): int
    requires 0 <= ct < |T.ctable|
  {
    if T.ctable[ct] == -1 then ct + 1 else ct
  }

  /** Index `k` is one of the alternatives of conflict entry `ct`. */
  ghost predicate Alternative(T: Tables, ct: int, k: int) {
    && 0 <= ct < |T.ctable|
    && First(T, ct) <= k < |T.ctable|
    && forall j :: First(T, ct) <= j <= k ==> T.ctable[j] >= 0
  }

  /** Taking alternative `k`: the entry itself is a shift, any later one a reduction. */
  function Pick(T: Tables, inp: seq<int>, c: Config, ct: int, k: int): Next
    requires Sized(T)
  {
    if !(0 <= k < |T.ctable|) || T.ctable[k] < 0 then Crashes
    else if k == ct then DoShift(c, T.ctable[k])
    else DoReduce(T, inp, c, T.ctable[k])
  }

  /** A step that involves no choice. */
  function Quiet(T: Tables, inp: seq<int>, c: Config): Option<Next>
    requires Sized(T)
  {
    if !HasState(T, c) then Some(Crashes)
    else match Act(T, inp, c)
      case Reduce(n) => Some(DoReduce(T, inp, c, n))
      case Shift(v) => Some(DoShift(c, v))
      case Conflict(_) => None
      case Error => None
  }

  // ----- Nondeterministic acceptance -----

  /** Some way of resolving the conflicts accepts within `n` steps from `c`. */
  ghost predicate CanAccept(T: Tables, inp: seq<int>, c: Config, n: nat)
    requires Sized(T)
    decreases n, 0
  {
    n > 0 && HasState(T, c) &&
    match Act(T, inp, c)
    case Reduce(r) => LeadsToAccept(T, inp, DoReduce(T, inp, c, r), n - 1)
    case Shift(v) => LeadsToAccept(T, inp, DoShift(c, v), n - 1)
    case Conflict(ct) =>
      exists k :: Alternative(T, ct, k) && LeadsToAccept(T, inp, Pick(T, inp, c, ct, k), n - 1)
    case Error => false
  }

  ghost predicate LeadsToAccept(T: Tables, inp: seq<int>, x: Next, n: nat)
    requires Sized(T)
    decreases n, 1
  {
    match x
    case Accepts(_) => true
    case Goes(c) => CanAccept(T, inp, c, n)
    case Crashes => false
  }

  // ----- The driver -----

  /** A conflict point: where it was met and the alternative being tried. */
  datatype Saved = Saved(cfg: Config, ctry: int)

  /** `saves` is the trial stack (`yyps->save`, oldest first); `path` the conflicts still to be
      met on the second pass (`yypath`, next first). */
  datatype Machine = Machine(cfg: Config, saves: seq<Saved>, path: seq<Saved>)

  datatype Result =
    | Running(m: Machine)
    | Accepted(final: Config)
    | Aborted
    | SyntaxError
    | Crashed

  /** Reaching accept: a trial becomes the path of a second pass, otherwise the parse is over. */
  function OnAccept(m: Machine, done: Config): Result {
    if m.saves == [] then Accepted(done)
    else if m.path != [] then Aborted
    else Running(Machine(m.saves[0].cfg, [], m.saves))
  }

  function Follow(m: Machine, x: Next): Result {
    match x
    case Goes(c) => Running(m.(cfg := c))
    case Accepts(c) => OnAccept(m, c)
    case Crashes => Crashed
  }

  /** An error during a trial: try the next alternative of the newest conflict that has one. */
  function Backtrack(T: Tables, inp: seq<int>, m: Machine): Result
    requires Sized(T)
    decreases |m.saves|
  {
    if m.saves == [] then SyntaxError
    else
      var older, sv := m.saves[..|m.saves| - 1], m.saves[|m.saves| - 1];
      var k := sv.ctry + 1;
      if !(0 <= k < |T.ctable|) then Crashed
      else if T.ctable[k] >= 0 then
        Follow(Machine(sv.cfg, older + [Saved(sv.cfg, k)], m.path), DoReduce(T, inp, sv.cfg, T.ctable[k]))
      else
        Backtrack(T, inp, Machine(sv.cfg, older, m.path))
  }

  /** One pass of the main parsing loop. */
  function Step(T: Tables, inp: seq<int>, m: Machine): Result
    requires Sized(T)
  {
    if !HasState(T, m.cfg) then Crashed
    else match Act(T, inp, m.cfg)
      case Reduce(n) => Follow(m, DoReduce(T, inp, m.cfg, n))
      case Shift(v) => Follow(m, DoShift(m.cfg, v))
      case Conflict(ct) =>
        if !(0 <= ct < |T.ctable|) then Crashed
        else if m.path != [] then
          var sv := m.path[0];
          if |sv.cfg.stack| == 0 || Top(sv.cfg) != Top(m.cfg) then Aborted
          else Follow(m.(path := m.path[1..]), Pick(T, inp, m.cfg, ct, sv.ctry))
        else
          var k := First(T, ct);
          Follow(m.(saves := m.saves + [Saved(m.cfg, k)]), Pick(T, inp, m.cfg, ct, k))
      case Error => Backtrack(T, inp, m)
  }

  function Start(): Machine { Machine(Config([0], 0), [], []) }

  /** `n` passes of the loop. */
  function Run(T: Tables, inp: seq<int>, m: Machine, n: nat): Result
    requires Sized(T)
    decreases n
  {
    if n == 0 then Running(m)
    else match Step(T, inp, m)
      case Running(m') => Run(T, inp, m', n - 1)
      case r => r
  }
}
