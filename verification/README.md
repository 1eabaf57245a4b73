# Verified model of btyacc and libtommath

Two components of `extern/` are modelled and proved in Dafny.

**btyacc** generates LALR(1) parsers that keep their conflicts and try the alternatives by backtracking. The model
follows the program from the packed grammar to the running parser: closure of item sets by bit matrices (`Warshall`,
`Closure`), the LR(0) collection (`Lr0`), nullable symbols, gotos and lookahead sets (`Nullable`, `Gotos`, `LalrReads`,
`LalrIncludes`, `Lalr`, `Digraph`), action lists, conflict resolution and default reductions (`Actions`, `Conflicts`),
rows, conflict table and row displacement (`TokenActions`, `ConflictTable`, `GotoActions`, `FirstFit`, `Packer`), and
the driver text of `skeleton.c` with its state stack, lexeme queue, saved states and second pass (`Driver`). The stages
are joined in `Generator`: its methods `MakeTables` and `GenerateAndParse` have no hypothesis but a well-formed grammar
and the numbering of its tokens.

**libtommath** computes with integers of any size, kept as strings of digits of DIGIT_BIT bits. The model keeps the
digits, `used` and the sign, lets the digit width be any number from 7 up and the double word anything wider than two
digits, and proves every operation against the integer it stands for: division, Montgomery reduction in both forms,
sliding-window exponentiation, Miller-Rabin, comba, Karatsuba and schoolbook products, n-th root, greatest common
divisors and modular inverses.

Code that works in place is modelled in place: classes with the fields of the source, arrays, bit rows and loops, each
method proved against a specification that does not mention the algorithm. The specifications and the theorems about
them are functions and lemmas (`Items`, `Automaton`, `LalrSpec`, `LalrFollow`, `DriverMachine`, `DriverSearch`,
`DriverSound`, `DriverComplete`, `DriverProgress`, `LalrExact`, `Packing`, `StateTables`, `StateOffers`, `MpDivArith`,
`Primes`, `GcdSpec`, `LeastBezout`).

`dafny verify dfyconfig.toml` checks the whole project.

## Findings

Places where the code does something other than its name or documentation says. In each case the model does what the
code does, and the lemma named gives the exact condition.

- **Sign of the inverse** (extern/libtommath/bn_fast_mp_invmod.c:130-139). The inverse of a mod b is given the sign of
  a. The product with a is then -1 instead of 1: a = -1, b = 3 gives -2 (`InvMod.WrongSignExample`). It is an inverse
  if and only if a is not negative (`InvMod.FastInverseOnlyIfPositive`).
- **Endless loop** (extern/libtommath/bn_fast_mp_invmod.c:58-120). Zero is neither even nor odd
  (extern/libtommath/tommath.h:222-223), so with v = 0 a round changes nothing. The loop ends if and only if b does
  not divide a (`InvMod.FastLoopEnds`); b = 1 is the smallest input without an end.
- **A result that is not reduced** (extern/libtommath/bn_fast_mp_invmod.c:58-139). The halving steps may leave a
  coefficient above the modulus, and only a negative one is corrected: for a = 253, b = 777 the result is 820, where
  43 would be expected (`InvMod.NotReducedExample`). It is below b if and only if the coefficient is
  (`InvMod.LiftedBelow`); it never exceeds (l + 1) b for b up to 2^l (`InvMod.CoefficientBound`, `InvMod.FastInvMod`).
- **Inverses that do not exist** (extern/libtommath/bn_mp_invmod_slow.c:19-170). Where b divides a, the general form
  reports success if and only if b is a power of two, although for b > 1 no inverse exists: a = b = 2 gives 0
  (`InvModSlow.SlowInvMod`, `InvModSlow.WrongForPowersOfTwo`, `InvModSlow.WrongExample`).
- **One word too many** (extern/libtommath/bn_fast_s_mp_mul_digs.c:87-99). The copy takes a word of the column array
  that was never written. The digits of the product are right in any case; the digit above them is zero, as other
  routines expect, if and only if that word was (`MulComba.MulDigits`, `Mul.MultiplyColumns`).
- **Residues for a negative modulus** (extern/libtommath/bn_mp_mod.c:18-38). The comment promises 0 <= c < b. For a
  negative b the result lies in b <= c < 0; it is b itself, where 0 would be expected, if and only if b divides a
  (`MpMod.ResidueOfNegative`).
- **A lost sign** (extern/libtommath/bn_mp_add_d.c:50-92). The sign of the result is set before that of the operand is
  looked at. With one number for both, a negative a with a + b above zero gives b - a instead of a + b: -1 and 3 make
  4 (`MpSmall.SignLost`). In all other cases, and only there, the result is the sum (`MpSmall.AddD`).
- **Normalization of powers of two** (extern/libtommath/bn_mp_montgomery_calc_normalization.c:24-54). The radix modulo
  b is wanted. The doubling begins at b itself if b is 1, or has several digits and is a power of two other than the
  top bit of a digit, and then stays at b, where 0 would be expected (`MontgomerySetup.StartExact`,
  `MontgomerySetup.CalcNormalization`). Among odd moduli only 1 is concerned, and the exponentiation is right for it
  all the same (`ExptMod.ExptModFast`).
- **A shifted zero** (extern/libtommath/bn_mp_lshd.c:19-62). Zero is shifted too and keeps leading zero digits
  (`MpShift.Lshd`). Division relies on how subtraction treats such a number (`MpAdd.Sub`, `MpDiv.Multiple`).
- **An action in force that is not taken** (extern/btyacc/mkpar.c:211-235, extern/btyacc/output.c:187-226). A
  reduction can win over a shift by precedence after another reduction has already been counted as a conflict with
  that shift. It then keeps flag 0 next to an action with flag 1, and the conflict list of the token hides it
  (`Conflicts.MixedGroup`). The grammar `%left x; S : A x | B x | t x; A : t; B : t %prec x` has such a state
  (`MixedExample.MixedState`, `MixedExample.MakeExample`). An action with flag 0 is what the driver selects if and
  only if no other action on its token is in conflict (`StateOffers.InForceIsSelected`).

## Model

| member | source | states |
|---|---|---|
| `Generator.MakeTables` | extern/btyacc/main.c:453-457 | for every well-formed grammar and any precedences: succeeds if and only if first fit finds room for the rows below MAXTABLE, surely if a bound in states, tokens and nonterminals is met; the tables then encode the canonical automaton, their parser is sound, they offer all actions if and only if precedence dropped none (always so without rule precedences), and then the parser is complete and decides every input on which the search ends |
| `Generator.CompleteDecides` | extern/btyacc/skeleton.c:243-668 | a sound and complete parser accepts an input on which the search ends if it can be derived, and reports a syntax error if it cannot |
| `Generator.RowsUnique` | extern/btyacc/output.c:168-386 | rows and columns are determined by the states with their flags, the gotos and the token values, default gotos included |
| `Generator.GenerateAndParse` | extern/btyacc/main.c:453-457 | generator and driver together, with no hypothesis but the grammar and its token values: a parser is made if and only if first fit finds room, surely for a grammar within the bound; its status after n passes is that of the machine, never an abort; acceptance means a derivation from the goal, a syntax error with nothing dropped means there is none; with nothing dropped, every run on an input on which the search ends comes to an end, with acceptance if and only if the input can be derived |
| `Generator.BuiltEncodes` | extern/btyacc/output.c:21-40 | packed rows, default reductions, default gotos and rule data together let the driver find exactly actions and gotos of the automaton |
| `Generator.BuiltOffers` | extern/btyacc/output.c:168-277 | the tables offer every action of every state if and only if no action has flag 2 |
| `Generator.NothingToDrop` | extern/btyacc/mkpar.c:187-240 | without rule precedences remove_conflicts never writes flag 2 |
| `Generator.Output` | extern/btyacc/output.c:21-40 | rows, packing and printed arrays: the finished tables if and only if the rows can be packed, which is sure within the bound |
| `Generator.SmallIsRoomy` | extern/btyacc/output.c:528-600 | states, tokens and nonterminals within the bound leave room for every row |
| `Generator.MakeParser` | extern/btyacc/mkpar.c:23-36 | every state gets its ordered action list, its flags and its default reduction |
| `Generator.FindFinalState` | extern/btyacc/mkpar.c:139-153 | the state entered from state 0 by the goal |
| `Generator.TokenRows` | extern/btyacc/output.c:168-277 | for all states the shift, reduce and conflict rows, and one conflict table in which every list is whole |
| `Generator.GotoColumns` | extern/btyacc/output.c:279-311 | one column for each nonterminal but the start symbol: every goto that differs from the default; the default is the most frequent target, the least of these, and 0 if there is no goto |
| `Generator.RuleData` | extern/btyacc/output.c:43-90 | left side and length of every rule, by the numbers the driver uses |
| `Generator.GotoInTables` | extern/btyacc/output.c:313-386 | what the driver finds as a goto, stored or default, is the goto of the automaton |
| `Generator.StateInTables` | extern/btyacc/output.c:168-277 | through the three displacements of a state the driver finds exactly the cells of its actions |
| `Warshall.TransitiveClosure` | extern/btyacc/warshall.c:3-52 | in place, the bit matrix becomes the relation of paths of one or more steps |
| `Warshall.ReflexiveTransitiveClosure` | extern/btyacc/warshall.c:54-80 | in place, bit (x, y) is set if and only if y can be reached from x |
| `Warshall.ReachIsVia` | extern/btyacc/warshall.c:3-52 | paths through all intermediates are reachability |
| `Closures.SetEFF` | extern/btyacc/closure.c:11-44 | the matrix is the reflexive transitive closure of the leftmost-nonterminal relation |
| `Closures.SetFirstDerives` | extern/btyacc/closure.c:47-101 | bit r of row v is set if and only if the left side of rule r is reachable from v |
| `Closures.CollectRules` | extern/btyacc/closure.c:119-136 | bit r is set if and only if rule r begins something that a nonterminal after a dot of the nucleus can begin with |
| `Closures.Closer.Close` | extern/btyacc/closure.c:104-173 | the item list ends strictly increasing and holds exactly the closure of the nucleus |
| `Closures.Closer.MergeOne` | extern/btyacc/closure.c:151-162 | one rule number of the ordered merge |
| `Closures.Closer.MergeWord` | extern/btyacc/closure.c:143-164 | one word of the rule set, scanned by a moving mask |
| `Closures.Closer.CopyRest` | extern/btyacc/closure.c:167-168 | the rest of the nucleus follows in order, without overrunning the buffer |
| `Items.ClosureIsLeast` | extern/btyacc/closure.c:104-173 | the closure is closed under adding the initial items of a nonterminal after a dot, and lies in every closed set containing the nucleus |
| `Lr0.Generate` | extern/btyacc/lr0.c:123-146 | terminates for every grammar with the canonical LR(0) collection: distinct kernels, every goto exactly the moved-on items, shifts ordered by symbol, reductions exactly the completed items, every state but 0 entered |
| `Lr0.Builder.GenerateStates` | extern/btyacc/lr0.c:123-146 | the work list reaches every state it creates and ends |
| `Lr0.Builder.constructor` | extern/btyacc/lr0.c:213-237 | state 0 holds the first item of the augmented rule and is in no chain |
| `Lr0.Builder.NewState` | extern/btyacc/lr0.c:276-310 | one record is appended, nothing else changes |
| `Lr0.Builder.Search` | extern/btyacc/lr0.c:150-209 | the chain search finds the state with the kernel, or shows that no state from 1 on has it |
| `Lr0.Builder.GetState` | extern/btyacc/lr0.c:150-209 | the state with this kernel and symbol; a new one only if there was none |
| `Lr0.Builder.AppendStates` | extern/btyacc/lr0.c:81-107 | symbols are sorted, each gets its state, and every new state is among the shifts |
| `Lr0.NewItemsets` | extern/btyacc/lr0.c:240-272 | for every symbol after a dot the items moved past it, and the list of these symbols |
| `Lr0.SaveReductions` | extern/btyacc/lr0.c:423-469 | exactly the rules whose items are complete, in their order |
| `Lr0.DoneIsLR0` | extern/btyacc/lr0.c:123-146 | a table in which every state has been expanded is canonical |
| `Sorting.InsertionSort` | extern/btyacc/lr0.c:81-107 | sorted, a permutation, the rest of the array untouched |
| `Nullables.SetNullable` | extern/btyacc/lr0.c:531-577 | marks exactly the symbols with a derivation tree that has no leaves |
| `Nullables.Pass` | extern/btyacc/lr0.c:544-566 | one pass keeps the marks sound, and either changes nothing and all rules are satisfied, or marks more |
| `Automata.ItemSpellsPath` | extern/btyacc/lr0.c:240-272 | on any path, the item in the last state spells the symbols before its dot |
| `Automata.ReductionSpellsStack` | extern/btyacc/lr0.c:423-469 | a state reduces by a rule only where the stack spells its right-hand side, and the state below can shift its left side |
| `Gotos.SetGotoMap` | extern/btyacc/lalr.c:163-226 | the gotos, grouped by symbol and ordered by state within a group, are exactly those of the automaton |
| `Gotos.MapGoto` | extern/btyacc/lalr.c:232-254 | finds the number of any goto, never leaving the segment of its symbol |
| `LalrReads.InitializeLA` | extern/btyacc/lalr.c:126-160 | one lookahead set for each reduction of each state, found through its index |
| `LalrReads.InitializeF` | extern/btyacc/lalr.c:258-331 | the direct reads of every goto and the reads relation, closed by digraph: the least Read sets |
| `LalrIncludes.WalkRule` | extern/btyacc/lalr.c:365-384 | the states met when a rule is read from a goto |
| `LalrIncludes.BackEdges` | extern/btyacc/lalr.c:388-400 | the gotos met backwards while the rest of the rule vanishes |
| `LalrIncludes.AddLookbackEdge` | extern/btyacc/lalr.c:427-449 | the goto is added to the reduction of that state and rule, to no other |
| `LalrIncludes.BuildRelations` | extern/btyacc/lalr.c:335-424 | includes and lookback are exactly the relations of the LALR(1) construction |
| `LalrIncludes.Transpose` | extern/btyacc/lalr.c:453-504 | the converse relation: an edge from y to x for every edge from x to y, and no other |
| `Lalr.ComputeLookaheads` | extern/btyacc/lalr.c:514-545 | each lookahead set is the union of the Follow sets it looks back to |
| `Lalr.ComputeLalr` | extern/btyacc/lalr.c:35-50 | each lookahead set is the union over its lookback gotos of the least Follow sets over the least Read sets |
| `LalrFollow.ReadsTree` | extern/btyacc/lalr.c:258-331 | the first token of any tree that can follow a goto is in its Read set |
| `LalrFollow.FollowsInRule` | extern/btyacc/lalr.c:335-424 | whatever can follow a nonterminal inside a rule is in the Follow set of its goto |
| `LalrExact.LookaheadIsReal` | extern/btyacc/lalr.c:35-50 | no lookahead token is there without reason: the stack can spell a beginning and the body of the rule on a path to the state, and in some sentential form the token stands right after the left side with the same beginning |
| `LalrExact.FollowsAreReal` | extern/btyacc/lalr.c:335-424 | every token in the Follow set of a goto follows its nonterminal in some sentential form that begins with a path to the goto |
| `Digraphs.Digraph.Run` | extern/btyacc/lalr.c:548-570 | in place, every set becomes the union of the original sets of all reachable nodes |
| `Digraphs.Digraph.Traverse` | extern/btyacc/lalr.c:572-625 | keeps the Tarjan invariant, touches no finished node, and leaves either a block on the stack or a finished component |
| `Digraphs.Digraph.Unwind` | extern/btyacc/lalr.c:608-624 | pops exactly the component of the root and gives each member its set |
| `Digraphs.ClosedIsLeastSolution` | extern/btyacc/lalr.c:548-625 | the result is the least solution of F(i) = F(i) + the union of F over the successors of i |
| `Digraphs.ComponentComplete` | extern/btyacc/lalr.c:608-624 | when a component is popped, the set of its root already holds all its members collect |
| `Digraphs.MemberReachesRoot` | extern/btyacc/lalr.c:608-624 | every member of a popped component reaches its root |
| `Actions.GetShifts` | extern/btyacc/mkpar.c:47-78 | the shifts on tokens, in order of their symbols |
| `Actions.AddReduce` | extern/btyacc/mkpar.c:102-137 | inserted into the ordered list, which stays ordered by symbol, shift before reduce, rule |
| `Actions.AddReductions` | extern/btyacc/mkpar.c:80-100 | one reduction for each token of each lookahead set |
| `Actions.ParseActions` | extern/btyacc/mkpar.c:38-45 | the ordered list holds exactly the shifts and the lookahead reductions of the state |
| `Conflicts.RemoveConflicts` | extern/btyacc/mkpar.c:187-240 | the flags 0, 1 and 2 of every action are those of its token group, stated by precedence and associativity without the loop; a token with one shift and one reduction keeps the one of higher precedence, for equal ones the shift if it is RIGHT, the reduction if it is LEFT and else neither, and where a precedence is missing both are in conflict; the two counts are those of shift-reduce and reduce-reduce conflicts |
| `Conflicts.ShiftFlag` | extern/btyacc/mkpar.c:207-235 | when a shift is in force and when it is dropped, by the precedences of the reductions beside it |
| `Conflicts.ReductionFlag` | extern/btyacc/mkpar.c:207-235 | when a reduction beside a shift is in force and when it is dropped |
| `Conflicts.OutrankedIsOut` | extern/btyacc/mkpar.c:216-221 | a reduction with a lower precedence than a shift on its token is never in force |
| `Conflicts.FlagStep` | extern/btyacc/mkpar.c:202-235 | the assignments of the loop keep the group statement true |
| `Conflicts.OneInForce` | extern/btyacc/mkpar.c:187-240 | no two actions of a state on one token both keep flag 0 |
| `Conflicts.WithoutPrecedence` | extern/btyacc/mkpar.c:226-235 | without precedences an action has flag 1 if another one shares its token, else 0 |
| `Conflicts.NothingDropped` | extern/btyacc/mkpar.c:187-240 | if nothing has flag 2, flag 0 means alone on its token |
| `Conflicts.MixedGroup` | extern/btyacc/mkpar.c:211-235 | the flags of a group in which an action keeps flag 0 next to one in conflict |
| `MixedExample.MixedState` | extern/btyacc/mkpar.c:187-240 | a grammar of six rules: whenever the generator has run on it, some state has a reduction with flag 0 on a token with an action in conflict |
| `MixedExample.MakeExample` | extern/btyacc/main.c:453-457 | the generator run on that grammar: no tables it makes let the driver reduce by that rule in that state with that token ahead |
| `MixedExample.NeverTaken` | extern/btyacc/skeleton.c:243-404 | in that state, with that token ahead, the driver never takes this reduction |
| `Conflicts.SoleReduction` | extern/btyacc/mkpar.c:263-287 | returns a rule if and only if all actions with flag 0 or 1 reduce by it, one of them on a token other than error |
| `TokenActions.StateCells` | extern/btyacc/output.c:178-226 | each token of a state has its shift, reduce or conflict cell, and none besides |
| `TokenActions.OneAction` | extern/btyacc/output.c:187-216 | the scan extends the cells by one action |
| `TokenActions.AlternativesRise` | extern/btyacc/output.c:199-216 | the alternatives of a conflict come with the shift first and then the reductions in the order of their rules |
| `ConflictTable.FindConflictBase` | extern/btyacc/output.c:155-166 | the first earlier place with the same list |
| `ConflictTable.Close` | extern/btyacc/output.c:188-198 | the list is in the table, at the first place where it occurs; it is kept if that is its own place, else taken back but for a -1 at its beginning, and no earlier list is cut |
| `TableRows.ActionRow` | extern/btyacc/output.c:228-275 | a row lists exactly the nonzero cells of one kind by token value, in the order of the tokens |
| `TableRows.LookupIsRow` | extern/btyacc/skeleton.c:377-404 | the lookup of the driver through a displacement succeeds with t if and only if the row has that entry |
| `StateTables.StateSound` | extern/btyacc/skeleton.c:243-404 | whatever the driver finds for a state is one of its actions: shifts, reductions, conflict lists and default |
| `StateOffers.OffersUnlessDropped` | extern/btyacc/output.c:168-277 | a state offers all its actions if and only if precedence has dropped none |
| `StateOffers.InForceIsSelected` | extern/btyacc/output.c:168-277 | in every state, with a default reduction or without, an action with flag 0 is what the driver selects if and only if no other action on its token is in conflict |
| `GotoActions.DefaultGoto` | extern/btyacc/output.c:313-344 | the most frequent target of the symbol and the least of these; 0 if there is none |
| `GotoActions.DefaultUnique` | extern/btyacc/output.c:313-344 | there is only one such state |
| `GotoActions.SaveColumn` | extern/btyacc/output.c:348-386 | the column holds exactly the gotos other than the default, in the order of the states |
| `Packers.Packer.SortActions` | extern/btyacc/output.c:388-420 | all nonempty rows, each once, widest first and among equals the longest first |
| `Packers.Packer.MatchingVector` | extern/btyacc/output.c:489-524 | the last row placed before that is identical, or there is none among the rows of tokens |
| `Packers.Packer.StartAt` | extern/btyacc/output.c:545-548 | the least displacement that keeps every column at or above LOWZERO |
| `Packers.Packer.PackVector` | extern/btyacc/output.c:528-600 | first fit: the row is placed, no smaller displacement fits, and nothing placed before is disturbed; or every fitting displacement reaches MAXTABLE |
| `Packers.Packer.TryAt` | extern/btyacc/output.c:551-583 | free at this displacement, which no other row has, if and only if it fits |
| `Packers.Packer.Grow` | extern/btyacc/output.c:557-574 | a larger table with the same contents and free cells above |
| `Packers.Packer.RaiseLowZero` | extern/btyacc/output.c:594-595 | everything below LOWZERO is occupied |
| `Packers.Packer.PackTable` | extern/btyacc/output.c:423-468 | succeeds if and only if the rows, placed in their order by first fit, all lie below MAXTABLE, and surely if each column leaves room for all entries times the entries of its row; the compression is then exact and the displacements are those of first fit |
| `FirstFits.OrderUnique` | extern/btyacc/output.c:388-420 | widest first, longest first, earliest first: there is only one placing order |
| `FirstFits.FirstFitUnique` | extern/btyacc/output.c:423-600 | first fit leaves no choice of displacements |
| `FirstFits.TooLongIsUnpackable` | extern/btyacc/output.c:551-562 | a row that has no place means that the rows cannot be packed by first fit at all |
| `FirstFits.TooLongIsNotRoomy` | extern/btyacc/output.c:551-562 | ... and that the table is too small by a measure taken from the rows alone |
| `FirstFits.SomeFree` | extern/btyacc/output.c:545-583 | a free displacement is never further up than all entries placed times the entries of the row, and one more for each row |
| `Packing.CompressionIsExact` | extern/btyacc/output.c:528-600 | through its displacement a row finds exactly its own columns, with their values |
| `Packing.StartSkipsNothing` | extern/btyacc/output.c:545-548 | no displacement below the starting point could have fitted |
| `Packing.SharedOk` | extern/btyacc/output.c:489-524 | an identical row may share a displacement |
| `Driver.Parser.Parse` | extern/btyacc/skeleton.c:243-668 | n passes of the main loop with its arrays, queue and saved stacks do what n steps of the machine on stack and input position do |
| `Driver.Parser.Loop` | extern/btyacc/skeleton.c:243-404 | one pass is one step of the machine |
| `Driver.Parser.AtConflict` | extern/btyacc/skeleton.c:273-371 | the conflict branch: follow the recorded choice, or save the state and try the first alternative |
| `Driver.Parser.SaveConflict` | extern/btyacc/skeleton.c:308-355 | the saved state stands for the present stack and input position, and the lookahead is back in the queue |
| `Driver.Parser.BacktrackAll` | extern/btyacc/skeleton.c:414-458 | back to the newest conflict with another alternative, with its stack and its remaining tokens; a syntax error if there is none |
| `Driver.Parser.Rewind` | extern/btyacc/skeleton.c:415-455 | stack and queue are as they were at the conflict, and its next alternative comes up |
| `Driver.Parser.ReduceBy` | extern/btyacc/skeleton.c:553-668 | pops the right-hand side and enters the goto |
| `Driver.Parser.Accepting` | extern/btyacc/skeleton.c:735-736 | a trial that accepts starts the second pass, anything else ends |
| `Driver.Parser.HandOver` | extern/btyacc/skeleton.c:675-704 | saved states become the path, oldest first |
| `Driver.Parser.Restore` | extern/btyacc/skeleton.c:694-703 | stack and queue of the first saved state |
| `Driver.Parser.YYLex1` | extern/btyacc/skeleton.c:754-774 | replays the queue, then reads on; the value is the token at the next position in either case |
| `Driver.Parser.Expand` | extern/btyacc/skeleton.c:776-799 | a larger queue with the same lexemes |
| `Driver.Parser.MoreStack` | extern/btyacc/skeleton.c:815-833 | a larger stack with the same states |
| `Driver.ParseInput` | extern/btyacc/skeleton.c:213-668 | with tables that encode the automaton: the status is that of the machine after n steps, never an abort, acceptance means a derivation, a syntax error means that no choice at any conflict accepts |
| `DriverSound.DriverIsSound` | extern/btyacc/skeleton.c:243-668 | for every input and run length: no array is left, the second pass never aborts, and an accepted input is derived from the goal |
| `DriverSound.ReduceKeeps` | extern/btyacc/skeleton.c:553-668 | a reduction never underflows the stack and keeps the stack a path whose symbols derive the consumed tokens |
| `DriverSound.ShiftKeeps` | extern/btyacc/skeleton.c:377-396 | so does a shift |
| `DriverSearch.SearchIsExact` | extern/btyacc/skeleton.c:273-371 | acceptance means that some resolution of the conflicts accepts, a syntax error that none does |
| `DriverProgress.SyntaxErrorIffDoomed` | extern/btyacc/skeleton.c:414-458 | a run ends with a syntax error if and only if every resolution of the conflicts fails within a common bound |
| `DriverProgress.AcceptsIffFinds` | extern/btyacc/skeleton.c:273-371 | a run ends with acceptance if and only if some resolution accepts, for which at each conflict all earlier alternatives fail within a bound |
| `DriverProgress.SearchEnds` | extern/btyacc/skeleton.c:414-458 | where every resolution of the conflicts accepts or fails within some bound, the run ends, with acceptance or a syntax error |
| `DriverProgress.FirstResolution` | extern/btyacc/skeleton.c:675-704 | the run accepts by the first resolution in the order of the alternatives, and for this the second pass starts at its first conflict with all its choices recorded |
| `DriverProgress.NoAcceptInTrial` | extern/btyacc/skeleton.c:735-736 | no run accepts while a trial is on |
| `DriverProgress.SecondPassMade` | extern/btyacc/skeleton.c:675-704 | an accepting run that has saved a conflict makes a second pass later, from the configuration of the first conflict it has kept |
| `DriverSearch.SecondPassAccepts` | extern/btyacc/skeleton.c:675-704 | once a trial has accepted, the second pass accepts after finitely many steps |
| `DriverSearch.FollowStep` | extern/btyacc/skeleton.c:279-296 | the second pass meets the saved conflicts in the saved order and configurations, so the mismatch abort is unreachable |
| `DriverComplete.SentenceCanBeAccepted` | extern/btyacc/skeleton.c:243-668 | with all actions offered, every derivable input can be accepted: the lookahead sets block no derivation |
| `DriverComplete.DriverDecides` | extern/btyacc/skeleton.c:243-668 | acceptance if and only if derivable, for every run that ends |
| `MpInts.MpInt.constructor` | extern/libtommath/bn_mp_init.c:19-41 | zero |
| `MpInts.MpInt.Sized` | extern/libtommath/bn_mp_init_size.c:19-43 | zero with room for the digits asked for |
| `MpInts.MpInt.Copied` | extern/libtommath/bn_mp_init_copy.c:19-27 | the value of the original in new storage |
| `MpInts.Grow` | extern/libtommath/bn_mp_grow.c:19-52 | room for the digits asked for, all digits and the value unchanged |
| `MpInts.Clamp` | extern/libtommath/bn_mp_clamp.c:25-39 | no leading zero digits, same value, zero positive |
| `MpInts.Copy` | extern/libtommath/bn_mp_copy.c:19-63 | same value, and every old digit above is cleared |
| `MpInts.CmpMag` | extern/libtommath/bn_mp_cmp_mag.c:19-50 | the order of the magnitudes when both are clamped or equally long; otherwise the longer one wins |
| `MpInts.Cmp` | extern/libtommath/bn_mp_cmp.c:19-38 | the order of the values |
| `MpAdd.SAdd` | extern/libtommath/bn_s_mp_add.c:19-104 | the sum of the magnitudes, operands and result in any alias |
| `MpAdd.SSub` | extern/libtommath/bn_s_mp_sub.c:19-83 | the difference of the magnitudes, the borrow being the top bit of the wrapped digit |
| `MpAdd.Add` | extern/libtommath/bn_mp_add.c:19-47 | the signed sum |
| `MpAdd.Sub` | extern/libtommath/bn_mp_sub.c:19-53 | the signed difference, also for a shifted zero as subtrahend |
| `MpShift.MulD` | extern/libtommath/bn_mp_mul_d.c:19-74 | the product with a digit |
| `MpShift.Lshd` | extern/libtommath/bn_mp_lshd.c:19-62 | the value times BP(b); `used` grows by b even for zero |
| `MpShift.Rshd` | extern/libtommath/bn_mp_rshd.c:19-67 | the value without its low b digits, also for a number with leading zero digits |
| `MpShift.Mul2d` | extern/libtommath/bn_mp_mul_2d.c:19-80 | the value times 2^b |
| `MpShift.Div2d` | extern/libtommath/bn_mp_div_2d.c:19-92 | the value divided by 2^b, rounded towards zero, and if asked for the rest, which may go into either operand |
| `MpShift.Mod2d` | extern/libtommath/bn_mp_mod_2d.c:19-50 | the low b bits of the magnitude, signed like a |
| `MpShift.Mul2` | extern/libtommath/bn_mp_mul_2.c:19-77 | twice the value |
| `MpShift.CountBits` | extern/libtommath/bn_mp_count_bits.c:19-40 | the least number of bits that holds the value |
| `MpShift.TwoExpt` | extern/libtommath/bn_mp_2expt.c:23-43 | 2^b |
| `MpSmall.CmpD` | extern/libtommath/bn_mp_cmp_d.c:19-39 | the order of a number and a digit |
| `MpSmall.SubD` | extern/libtommath/bn_mp_sub_d.c:19-87 | a number less a digit, whatever its sign |
| `MpSmall.AddD` | extern/libtommath/bn_mp_add_d.c:19-106 | a number plus a digit, except in place for a negative a above -b, where it is b + abs(a): right if and only if that is not the case |
| `MpSmall.SignLost` | extern/libtommath/bn_mp_add_d.c:50-92 | -1 and 3, added in place, make 4 |
| `MpSmall.CntLsb` | extern/libtommath/bn_mp_cnt_lsb.c:23-47 | the exponent of two in the value |
| `MpSmall.Div2` | extern/libtommath/bn_mp_div_2.c:19-63 | half the magnitude, rounded down, in place or into another number |
| `MpDiv.Div` | extern/libtommath/bn_mp_div.c:103-284 | quotient and remainder of truncating division for all signed operands, either result left out or in place of an operand; a zero divisor is an error that changes nothing |
| `MpDiv.DivisionUnique` | extern/libtommath/bn_mp_div.c:103-284 | a = c b + d with abs(d) < abs(b) and d zero or signed like a has one solution |
| `MpDiv.Normalise` | extern/libtommath/bn_mp_div.c:151-163 | both operands scaled by one power of two, the top digit of the divisor at least B/4 |
| `MpDiv.TopQuotientDigit` | extern/libtommath/bn_mp_div.c:169-182 | the partial remainder falls below the shifted divisor, and what was subtracted is in the top digit |
| `MpDiv.Guess` | extern/libtommath/bn_mp_div.c:190-202 | the guess from two digits is a digit, and not too small |
| `MpDiv.TestDigit` | extern/libtommath/bn_mp_div.c:213-227 | the three-digit test, which may stop early when the leading digit is zero |
| `MpDiv.Correct` | extern/libtommath/bn_mp_div.c:209-227 | the corrected digit is right or one too big |
| `MpDiv.SubtractMultiple` | extern/libtommath/bn_mp_div.c:229-255 | with at most one add-back the digit and the partial remainder are exact |
| `MpDiv.QuotientDigits` | extern/libtommath/bn_mp_div.c:184-256 | all digits: q y + x is conserved and x ends below y |
| `MpDivArith.GuessNotSmall` | extern/libtommath/bn_mp_div.c:190-202 | two digits over one never underestimate |
| `MpDivArith.AtMostOneTooBig` | extern/libtommath/bn_mp_div.c:204-227 | a guess that passes the test, or for which it is cut short, is at most one too big although the divisor is normalised to one bit less |
| `MpDivArith.CutShort` | extern/libtommath/bn_mp_cmp_mag.c:24-49 | the test is cut short only for guesses below four |
| `Montgomery.ReduceDigits` | extern/libtommath/bn_mp_montgomery_reduce.c:19-113 | the residue r below n with r R congruent to x, for every x below n R |
| `Montgomery.AddMultiple` | extern/libtommath/bn_mp_montgomery_reduce.c:58-93 | x += mu n at place ix, in place, the carry dying out within the digits in use |
| `Montgomery.Propagate` | extern/libtommath/bn_mp_montgomery_reduce.c:88-92 | carries move up without changing the total |
| `Montgomery.ReducedUnique` | extern/libtommath/bn_mp_montgomery_reduce.c:19-113 | for an odd modulus only one residue qualifies, so both forms agree |
| `MontgomeryFast.ReduceColumns` | extern/libtommath/bn_fast_mp_montgomery_reduce.c:26-167 | the same residue from columns of double words, none of which overflows |
| `MontgomeryFast.AddRow` | extern/libtommath/bn_fast_mp_montgomery_reduce.c:92-107 | one row of products, no column leaving a double word |
| `MontgomeryFast.Reduce` | extern/libtommath/bn_mp_montgomery_reduce.c:19-113 | the choice between the two forms |
| `MontgomerySetup.Setup` | extern/libtommath/bn_mp_montgomery_setup.c:19-54 | rho with rho n0 congruent to -1 for every odd digit, an error for an even one |
| `MontgomerySetup.FirstInverse` | extern/libtommath/bn_mp_montgomery_setup.c:38 | the first step inverts an odd digit modulo 16 |
| `MontgomerySetup.LiftInverse` | extern/libtommath/bn_mp_montgomery_setup.c:39-48 | each step doubles the number of correct bits, in words of any width that holds them |
| `MontgomerySetup.CalcNormalization` | extern/libtommath/bn_mp_montgomery_calc_normalization.c:24-54 | R modulo b for every positive b, unless the doubling begins at b itself; then b |
| `MontgomerySetup.StartExact` | extern/libtommath/bn_mp_montgomery_calc_normalization.c:28-41 | the doubling begins at a power of two at most b, and at b itself if and only if b is 1, or has several digits and is a power of two below the top bit of a digit |
| `ExptMod.ExptModFast` | extern/libtommath/bn_mp_exptmod_fast.c:32-315 | G^abs(X) modulo P in [0, P) for every odd P from 1 on, an error for an even P and for zero, Y untouched then |
| `ExptMod.BuildTable` | extern/libtommath/bn_mp_exptmod_fast.c:140-191 | cell j of the upper half holds the Montgomery form of G^j |
| `ExptMod.TakeBit` | extern/libtommath/bn_mp_exptmod_fast.c:201-265 | one bit through the window: the exponent read so far is what res and the window hold |
| `ExptMod.Leftover` | extern/libtommath/bn_mp_exptmod_fast.c:268-291 | the bits left in the window |
| `ExptMod.Scan` | extern/libtommath/bn_mp_exptmod_fast.c:193-266 | all bits of X, from the top digit down |
| `MpMod.Mod` | extern/libtommath/bn_mp_mod.c:19-43 | the residue with the sign of the modulus; zero modulus is an error |
| `MpMod.MulMod` | extern/libtommath/bn_mp_mulmod.c:19-35 | the residue of a product |
| `MpMod.SqrMod` | extern/libtommath/bn_mp_sqrmod.c:19-36 | the residue of a square |
| `MpMod.ResidueOfNegative` | extern/libtommath/bn_mp_mod.c:33-38 | for a negative modulus the result is b itself, not 0, exactly when b divides a |
| `MillerRabin.Test` | extern/libtommath/bn_mp_prime_miller_rabin.c:25-98 | the answer is yes if and only if a passes the strong test to the base b |
| `MillerRabin.PrimePasses` | extern/libtommath/bn_mp_prime_miller_rabin.c:25-98 | an odd prime passes to a base if and only if it does not divide the base: no prime is rejected |
| `MillerRabin.PassesIsFermat` | extern/libtommath/bn_mp_prime_miller_rabin.c:54-93 | a number that passes, prime or not, meets the congruence of Fermat to the base b |
| `MillerRabin.RootOfOneFails` | extern/libtommath/bn_mp_prime_miller_rabin.c:71-93 | a number for which the sequence holds a square root of 1 other than 1 and -1 does not pass |
| `Primes.Fermat` | extern/libtommath/bn_mp_prime_miller_rabin.c:54-93 | Fermat's little theorem |
| `Primes.Euclid` | extern/libtommath/bn_mp_prime_miller_rabin.c:54-93 | a prime that divides a product divides a factor |
| `Primes.RootsOfOne` | extern/libtommath/bn_mp_prime_miller_rabin.c:76-93 | modulo a prime only 1 and -1 square to 1 |
| `NRoot.Root` | extern/libtommath/bn_mp_n_root.c:28-127 | terminates with the integer b-th root of abs(a), signed like a, which is the only one; an error for an even root of a negative number; a is given back unchanged |
| `NRoot.RootUnique` | extern/libtommath/bn_mp_n_root.c:19-26 | there is only one integer c with c^b <= a < (c + 1)^b |
| `NRoot.ExptD` | extern/libtommath/bn_mp_expt_d.c:19-52 | a power by squaring, the exponent read as a digit |
| `NRoot.NewtonStep` | extern/libtommath/bn_mp_n_root.c:63-94 | one truncated Newton step |
| `NRoot.Iterate` | extern/libtommath/bn_mp_n_root.c:55-95 | ends with a < (t + 1)^b |
| `NRoot.Settle` | extern/libtommath/bn_mp_n_root.c:97-110 | counts down to the root |
| `NRoot.StepUp` | extern/libtommath/bn_mp_n_root.c:63-94 | below the root an iterate grows, or stops within one of it |
| `NRoot.StepDown` | extern/libtommath/bn_mp_n_root.c:63-94 | at or above the root an iterate never grows and never falls below it |
| `NRoot.TangentAbove` | extern/libtommath/bn_mp_n_root.c:55-95 | Bernoulli's inequality upwards |
| `NRoot.TangentBelow` | extern/libtommath/bn_mp_n_root.c:55-95 | Bernoulli's inequality downwards |
| `InvMod.FastInvMod` | extern/libtommath/bn_fast_mp_invmod.c:24-143 | for an odd modulus that does not divide a: success if and only if a is invertible, and then a c is 1, or -1 for a negative a; the size of c: what the rounds leave, raised by the modulus until it is not negative, and at most (l + 1) b for b up to 2^l |
| `InvMod.LiftedBelow` | extern/libtommath/bn_fast_mp_invmod.c:131-136 | the result is below the modulus if and only if what the rounds leave is |
| `InvMod.CoefficientBound` | extern/libtommath/bn_fast_mp_invmod.c:58-115 | for a modulus up to 2^l the rounds leave at most l + 1 times the modulus |
| `InvMod.NotReducedExample` | extern/libtommath/bn_fast_mp_invmod.c:58-139 | the inverse of 253 modulo 777 is 43, and the result is 820 |
| `InvMod.FastInverseOnlyIfPositive` | extern/libtommath/bn_fast_mp_invmod.c:130-139 | the result is an inverse if and only if a is not negative |
| `InvMod.WrongSignExample` | extern/libtommath/bn_fast_mp_invmod.c:130-139 | for a = -1, b = 3 there is an inverse, but no number with product -1 is one |
| `InvMod.FastLoopEnds` | extern/libtommath/bn_fast_mp_invmod.c:58-120 | the loop ends if and only if the modulus does not divide a |
| `InvMod.FastRound` | extern/libtommath/bn_fast_mp_invmod.c:58-115 | one round is the arithmetic round, also where it stands still; for v above zero it keeps the common divisors and both congruences, and lowers u + v |
| `InvModSlow.SlowInvMod` | extern/libtommath/bn_mp_invmod_slow.c:19-170 | for any modulus: where it does not divide a, the inverse in [0, b) if and only if there is one; where it does, success if and only if it is a power of two |
| `InvModSlow.WrongForPowersOfTwo` | extern/libtommath/bn_mp_invmod_slow.c:19-170 | where b > 1 divides a there is no inverse, and the odd part of b is 1 if and only if b is a power of two |
| `InvModSlow.InvModAny` | extern/libtommath/bn_mp_invmod.c:19-38 | the choice between the two forms; the result is in [0, b) for an even modulus, of the size of FastInvMod for an odd one |
| `Mul.Multiply` | extern/libtommath/bn_mp_mul.c:19-61 | the signed product, whichever method is chosen |
| `Mul.MultiplyColumns` | extern/libtommath/bn_mp_mul.c:19-61 | the column branch for any stale word: the digits below `used` are those of the product, and the number is well formed if and only if the word was zero |
| `Mul.Square` | extern/libtommath/bn_mp_sqr.c:19-53 | the square, whichever method is chosen |
| `Mul.Karatsuba` | extern/libtommath/bn_mp_karatsuba_mul.c:47-162 | the product from three of half the size; the mutual recursion with mp_mul ends from four digits on |
| `Mul.KaratsubaSqr` | extern/libtommath/bn_mp_karatsuba_sqr.c:25-116 | the square from three of half the size |
| `Mul.Halves` | extern/libtommath/bn_mp_karatsuba_mul.c:79-116 | upper and lower half recombine to the operand |
| `Mul.MiddleProduct` | extern/libtommath/bn_mp_karatsuba_mul.c:125-131 | the product of the sums, with fewer digits than the operands together |
| `Mul.MulBaseline` | extern/libtommath/bn_s_mp_mul_digs.c:22-85 | the schoolbook product |
| `Mul.SqrBaseline` | extern/libtommath/bn_s_mp_sqr.c:19-79 | the schoolbook square |
| `MulComba.MulDigits` | extern/libtommath/bn_fast_s_mp_mul_digs.c:34-102 | the digits of the product, no column overflowing; the number is well formed if and only if the word above them was zero |
| `MulComba.ProductDigits` | extern/libtommath/bn_fast_s_mp_mul_digs.c:47-81 | the column array holds the digits of the product |
| `MulComba.SqrDigits` | extern/libtommath/bn_fast_s_mp_sqr.c:28-109 | the square, with each product of different digits computed once and doubled |
| `MulColumns.ColumnsAreProduct` | extern/libtommath/bn_fast_s_mp_mul_digs.c:47-81 | the columns weighted by their places are the product |
| `MulColumns.SpanHalves` | extern/libtommath/bn_fast_s_mp_sqr.c:42-90 | a column of a square is twice its first half plus the middle square |
| `Gcd.BinaryGcd` | extern/libtommath/bn_mp_gcd.c:19-100 | the greatest common divisor for all signed operands, zero included |
| `Gcd.OddLoop` | extern/libtommath/bn_mp_gcd.c:73-89 | two odd numbers: terminates with their greatest common divisor |
| `Gcd.ExtEuclid` | extern/libtommath/bn_mp_exteuclid.c:21-77 | U3 is the greatest common divisor and a U1 + b U2 equals it, with the least coefficients: 2 abs(U1) U3 <= abs(b) and 2 abs(U2) U3 <= abs(a), or 0 and 1 or -1 where a number is zero or both have the same magnitude; of U1 and U2 each alone is one of such a pair |
| `LeastBezout.LeastUnique` | extern/libtommath/bn_mp_exteuclid.c:21-77 | there is only one such pair |
| `LeastBezout.RowsStep` | extern/libtommath/bn_mp_exteuclid.c:38-58 | a round of truncating division, whatever the signs, keeps what bounds the coefficients |
| `GcdSpec.GcdUnique` | extern/libtommath/bn_mp_gcd.c:19-100 | there is only one nonnegative greatest common divisor |

## Left out

btyacc:

- Reading grammars and skeletons, printing and the command line: the packed grammar is the input, the arrays the driver indexes are the output.
- Error recovery of the driver: a syntax error that no conflict can undo ends the model's run.
- Driver.Parser.Parse: ends there, where the code goes on to pop states and discard tokens.
- Driver.ParseInput: likewise.
- Semantic values, positions, actions, YYVALID, YYERROR and YYACCEPT from actions, and debugging output.
- Two tokens with the same value: `TokenValues` excludes them, as their rows would collide.
- Fatal errors for more than MAXSHORT states or gotos; memory is always there.
- The flat buffers `kernel_items`, `kernel_base` and `conflicts` and their sizes: kernels are kept by symbol, the conflict table grows.
- Linked lists of actions, shifts and reductions are sequences; flags are rewritten in a new list of the same order.
- Lookahead and Follow sets are sets of tokens rather than bit rows, and `lookaheads` of gotos are sequences of numbers.
- The size of the temporary `edge` list in build_relations.
- Unused rules, conflict totals and the text of verbose output.
- When the resolutions of a grammar's conflicts all end, which they need not for cyclic grammars: a run ends where they do (DriverProgress.SearchEnds), and the other theorems speak of every number of passes.
- Driver.Parser.SaveConflict: the stack of a saved state is a copy of the used part; its spare cells are not modelled.
- Packers.Packer.MatchingVector: for columns and conflict rows nothing is promised about identical rows, as the code does not look for them.

libtommath:

- Allocation failures, clearing and shrinking of numbers; `mp_grow` always succeeds.
- Toom-Cook products, Barrett, diminished-radix and 2k reductions: the thresholds and the reduction mode that select them are off.
- Jacobi symbols, perfect squares, random numbers, radix conversion and the remaining small helpers.
- The single-digit division branch and the bitwise division chosen by BN_MP_DIV_SMALL.
- The bitwise or of disjoint bit fields is an addition, a shift a multiplication or division by a power of two.
- MillerRabin.Test: odd numbers from 3 on, for which the algorithm is meant; an even one would need a reduction that is not modelled.
- MillerRabin.FirstTest: calls the Montgomery form directly where mp_prime_miller_rabin goes through mp_exptmod, which selects it for every odd modulus.
- InvMod.FastInvMod: excludes an odd modulus that divides a, for which the code does not end, and moduli that are not positive, which mp_invmod sends back.
- InvModSlow.InvModAny: inherits that exclusion for odd moduli.
- Mul.Multiply: the word copied above the digits of the column product is taken to be zero; MultiplyColumns states what holds for any other.
- NRoot.Root: the exponent 0, for which b - 1 wraps around to a power nobody can compute.
- Mul.MulBaseline: all digits of the product, as multiplication asks for; fewer are wanted by Barrett reduction only.
- MulComba.MulDigits: all digits of the product, likewise.
- MpSmall.AddD: a zero operand needs room for two digits in the result, which every number has from the start and keeps as long as it is not shrunk.
- ExptMod.ExptModFast: negative moduli, which mp_exptmod sends back; the digit buffer holds DIGIT_BIT bits, as bits above are shifted out before they are read.
