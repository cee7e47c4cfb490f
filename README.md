# Satisfiability challenge: a Dafny model

This project models the kernel of the satisfiability challenge and the solvers that
run against it. A challenge is a random 3-SAT instance. Its difficulty is a variable
count and a clauses-to-variables ratio scaled by 100. The seed drives a generator that
draws three distinct variables per clause, each with a random sign. A solver returns
one boolean per variable. While it works, it emits 32-bit progress identifiers through
a callback. `Challenge.Solve` records those identifiers as a byte stream next to the
answer. `Solution.VerifySolutionOnly` checks the answer against the clauses.
`Solution.VerifyMethodOnly` runs the solver again and compares each emission with the
recorded stream. `Solution.Write` and `Solution.Read` serialise a solution.

Five solvers are modelled:

* `DPLL` and `DPLL_aintgotno`: unit propagation, then pure-literal elimination, then
  branching on the lowest unassigned variable. They work in place on lists and
  dictionaries. The first takes the last unit clause in each round and walks by index;
  the second takes the first and walks over a snapshot of the list.
* `FastSat`: deduction over a set of assigned literals, plus random guessing.
* `DeterministicSATSolver`: each round sets the most frequent variable to its majority
  polarity and drops the clauses that value satisfies.
* `PureLiteralPropagation`: pure literals are fixed and the other variables are drawn
  at random, for up to 1000 attempts.

Modules, one per file:

| module | file | models |
|---|---|---|
| `Common` | common.dfy | literals, clauses, satisfaction, 32-bit wrapping; the in-place `List<List<int>>`, `Dictionary<int,bool>` and `HashSet<int>` as classes |
| `ClauseOps` | clause_ops.dfy | the clause helpers the DPLL files and PureLiteralPropagation share |
| `Identifier` | identifier.dfy | the progress identifier (a wrapping product of the indices of true entries) |
| `Challenge` | challenge.dfy | `Difficulty`, the generator, `IsInputSolution` |
| `ProofCodec` | proof_codec.dfy | `Solution.Write` / `Solution.Read` over a little-endian byte stream |
| `DpllSpec` | dpll_spec.dfy | the DPLL recursion as functions, with either unit-clause scan order |
| `Dpll` | dpll.dfy | DPLL.cs, proved equal to `DpllSpec` with the backward scan |
| `DpllForward` | dpll_forward.dfy | DPLL_aintgotno.cs, proved equal to `DpllSpec` with the forward scan |
| `FastSat` | fast_sat.dfy | FastSat.cs as written |
| `FastSatFixed` | fast_sat_fixed.dfy | FastSat.cs with the consistency checks it evidently intends (see Findings) |
| `DeterministicSat` | deterministic_sat.dfy | DeterministicSATSolver.cs |
| `PureLiteral` | pure_literal.dfy | PureLiteralPropagation.cs |
| `Verifier` | verifier.dfy | `Challenge.Solve`, `VerifySolutionOnly`, `VerifyMethodOnly` |

How the environment is modelled:

* Randomness is a parameter. The challenge generator reads a draw sequence that is a
  function of the wrapped seed `seed + 1337`. PureLiteralPropagation reads a coin
  oracle. FastSat picks its guess with an unconstrained choice.
* The deadline is a number: how many emissions happen before it passes.
* The solver class that is created by reflection is the `Algorithm` datatype.
* Emissions are the returned `seq<int32>` trace. The recording and replaying callbacks
  consume that trace.
* A C# `int` is `int32`. Wrap-around is written out with `Wrap32`, and truncating
  division with `DivTrunc`.

DPLL returns the dictionary it holds when both branches fail. That dictionary need not
satisfy the clauses, and it is non-empty, so a caller takes it for a success. The
model keeps this behaviour. It proves satisfaction only for runs that simplification
alone settles (`DpllSpec.SolvedBySimplification`).

## Model

| member | source | states |
|---|---|---|
| Common.Wrap32 | Satisfiability.Algorithms/DeterministicSATSolver.cs:77-80 | the C# `int` value of an integer: congruent to it modulo 2^32, and equal to it when it fits |
| Common.Wrap32Mul | Satisfiability.Algorithms/DeterministicSATSolver.cs:77-80 | wrapping after each factor of a product gives the wrap of the exact product |
| Common.UnhitMembers | Satisfiability.Algorithms/FastSat.cs:68-82 | the clauses kept by filtering are exactly the clauses that contain no literal of the set |
| Common.RemoveFirstMembers | Satisfiability.Algorithms/DPLL.cs:174-176 | `List.Remove` of a literal keeps every other literal and adds none |
| Common.RemoveFirstGone | Satisfiability.Algorithms/DPLL.cs:174-176 | in a clause with distinct variables, the removed literal is gone |
| Common.RemoveFirstDistinct | Satisfiability.Algorithms/DPLL.cs:174-176 | removing a literal keeps the clause's variables distinct |
| Common.ClauseList.RemoveAt | Satisfiability.Algorithms/DPLL.cs:104 | the clause at the index is removed and the others keep their order |
| Common.ClauseList.RemoveLiteral | Satisfiability.Algorithms/DPLL.cs:175 | only the clause at the index changes, losing the first copy of the literal |
| Common.AssignmentMap.Add | Satisfiability.Algorithms/DPLL.cs:101-103 | a key not yet present is bound to the value and nothing else changes |
| Common.LiteralSet.Add | Satisfiability.Algorithms/FastSat.cs:102 | the set gains the literal |
| Common.LiteralSet.Remove | Satisfiability.Algorithms/FastSat.cs:98-99 | the literal leaves the set, and the result says whether it was present |
| ClauseOps.VariablesInClauses | Satisfiability.Algorithms/DPLL.cs:146-154 | the result is exactly the set of literals occurring in some clause |
| ClauseOps.GetPureLiterals | Satisfiability.Algorithms/DPLL.cs:135-144 | a literal is returned iff it occurs and its negation occurs in no clause |
| ClauseOps.ContainsUnitClause | Satisfiability.Algorithms/DPLL.cs:23-30 | true iff some clause has exactly one literal |
| ClauseOps.ContainsEmptyClause | Satisfiability.Algorithms/DPLL.cs:156-163 | true iff some clause is empty |
| ClauseOps.DeepCopyClauses | Satisfiability.Algorithms/DPLL.cs:180-192 | a fresh list with the same clauses, so later changes to either list leave the other alone |
| Identifier.ProductOfFalse | Satisfiability.Algorithms/PureLiteralPropagation.cs:71-74 | an input with no true entry has identifier 1 |
| Identifier.TrueIndexProduct | Satisfiability.Algorithms/DeterministicSATSolver.cs:77-80 | the exact product of the indices `i >= 1` whose entry is true is at least 1 |
| Identifier.UniqueInt | Satisfiability.Algorithms/DeterministicSATSolver.cs:77-80 | the loop returns the exact product of the indices `i >= 1` with a true entry, wrapped to 32 bits |
| Challenge.NewDifficulty | Satisfiability.Challenge/challenge.cs:28-36 | succeeds iff there are at least 3 variables and the ratio is at least 1, storing both unchanged; otherwise fails with `ArgumentException` |
| Challenge.NumClauses | Satisfiability.Challenge/challenge.cs:17 | when the product fits in 32 bits, the clause count is the product divided by 100, and it is non-negative for a valid difficulty |
| Challenge.NatToStringDigits | Satisfiability.Challenge/challenge.cs:38-44 | the decimal text of a number is non-empty, all digits, and reads back as the number |
| Challenge.ParseIntToString | Satisfiability.Challenge/challenge.cs:20-26 | `int.Parse` of the text of any 32-bit integer gives that integer back |
| Challenge.FromEncodingFields | Satisfiability.Challenge/challenge.cs:20-44 | decoding the fields of a valid difficulty gives that difficulty back |
| Challenge.ParseInt32 | Satisfiability.Challenge/challenge.cs:23-24 | `int.Parse` with the default style: a text it accepts holds only white space, signs and digits, and white space alone is a format error |
| Challenge.ParsePadded | Satisfiability.Challenge/challenge.cs:23-24 | the text of any 32-bit integer with white space before and after parses back to that integer |
| Challenge.FromEncoding | Satisfiability.Challenge/challenge.cs:20-26 | no fields is an index error; a success has at least two fields, is a valid difficulty, and its values are what the first two fields parse to |
| Challenge.FromEncodingPadded | Satisfiability.Challenge/challenge.cs:20-26 | white space around either field does not change the decoded difficulty |
| Challenge.Fields | Satisfiability.Challenge/challenge.cs:38-44 | two fields, which parse back to the variable count and the ratio |
| Challenge.GeneratorSeed | Satisfiability.Challenge/challenge.cs:134 | the generator seed is `seed + 1337` with 32-bit wrap-around |
| Challenge.Range | Satisfiability.Challenge/challenge.cs:137 | the starting variable list is `1..n` in order |
| Challenge.Pick | Satisfiability.Challenge/challenge.cs:143-148 | one slot's draw keeps the variable list at `n` entries |
| Challenge.ClauseFrom | Satisfiability.Challenge/challenge.cs:140-151 | `j` slots give a clause of `j` literals and a list of `n` variables |
| Challenge.Generate | Satisfiability.Challenge/challenge.cs:138-153 | `i` rounds give exactly `i` clauses and keep the variable list at `n` entries |
| Challenge.PickKeepsPermutation | Satisfiability.Challenge/challenge.cs:143-145 | the swap that picks a variable keeps the variable list a permutation of `1..n` |
| Challenge.ClauseFromShape | Satisfiability.Challenge/challenge.cs:140-151 | the literal at position `s` names the variable swapped to position `n-1-s`, and is negative iff its sign draw is even |
| Challenge.GenerateStep | Satisfiability.Challenge/challenge.cs:138-153 | generating `i+1` clauses is generating `i` and appending one clause drawn from the next chunk of draws |
| Challenge.GenerateShape | Satisfiability.Challenge/challenge.cs:138-153 | every generated clause has three literals over distinct in-range variables, and the variable list stays a permutation |
| Challenge.GenerateSigns | Satisfiability.Challenge/challenge.cs:147-148 | literal `j` of clause `k` is negative iff its sign draw is even |
| Challenge.DrawClause | Satisfiability.Challenge/challenge.cs:140-152 | the in-place swaps on the array produce the clause and the array that the generator function gives |
| Challenge.DrawClauses | Satisfiability.Challenge/challenge.cs:138-153 | the clause loop produces the clauses and the final array that the generator function gives |
| Challenge.RangeArray | Satisfiability.Challenge/challenge.cs:137 | a fresh array holding `1..n` |
| Challenge.NewChallenge | Satisfiability.Challenge/challenge.cs:130-154 | the challenge keeps its seed and difficulty, and its clauses are those generated from the draws for the wrapped seed |
| Challenge.GeneratedWellFormed | Satisfiability.Challenge/challenge.cs:130-154 | a generated challenge has exactly the clause count, each clause three distinct in-range variables |
| Challenge.IsInputSolution | Satisfiability.Challenge/challenge.cs:184-192 | true iff the input has one entry per variable and every clause has a literal that the input makes true |
| Challenge.ExampleIsSolution | Satisfiability.Algorithms/FastSat.cs:144-161 | the documented example input solves the example challenge, and one entry short it does not |
| ProofCodec.Int32Bytes | Satisfiability.Challenge/challenge.cs:64 | the four little-endian bytes of an integer decode back to it |
| ProofCodec.BoolBytes | Satisfiability.Challenge/challenge.cs:65-66 | one byte per boolean, non-zero iff it is true |
| ProofCodec.Encode | Satisfiability.Challenge/challenge.cs:62-69 | the encoding is 8 bytes of lengths plus one byte per input entry plus the trace bytes |
| ProofCodec.Int32At | Satisfiability.Challenge/challenge.cs:112 | reading an integer fails with end-of-stream iff fewer than four bytes remain |
| ProofCodec.BoolsAt | Satisfiability.Challenge/challenge.cs:113-114 | reading `count` booleans fails iff too few bytes remain, and otherwise yields non-zero-ness of each byte |
| ProofCodec.BytesAt | Satisfiability.Challenge/challenge.cs:117 | `ReadBytes` fails iff the count is negative, and otherwise returns the next `count` bytes, or fewer at the end of the stream |
| ProofCodec.Decode | Satisfiability.Challenge/challenge.cs:109-119 | fewer than four bytes is an end-of-stream error; a success ends 8 bytes plus one per boolean plus the trace length after the start, within the stream |
| ProofCodec.DecodeFields | Satisfiability.Challenge/challenge.cs:109-119 | a stream of length, booleans, length and tail decodes to those booleans and the tail cut to the length |
| ProofCodec.DecodeEncode | Satisfiability.Challenge/challenge.cs:62-119 | reading what was written gives the solution back, whatever follows it in the stream |
| ProofCodec.DecodeTruncatedTrace | Satisfiability.Challenge/challenge.cs:117 | a stream cut inside the trace still decodes, to the shorter trace |
| ProofCodec.DecodeShortStream | Satisfiability.Challenge/challenge.cs:112 | a stream shorter than four bytes fails with end-of-stream |
| ProofCodec.ByteWriter.WriteInt32 | Satisfiability.Challenge/challenge.cs:64 | appends the four little-endian bytes |
| ProofCodec.ByteWriter.WriteBool | Satisfiability.Challenge/challenge.cs:66 | appends one byte for the boolean |
| ProofCodec.ByteWriter.WriteBytes | Satisfiability.Challenge/challenge.cs:68 | appends the bytes |
| ProofCodec.ByteReader.ReadInt32 | Satisfiability.Challenge/challenge.cs:112 | returns what the decoding function reads at the position and advances four bytes |
| ProofCodec.ByteReader.ReadBoolean | Satisfiability.Challenge/challenge.cs:114 | returns non-zero-ness of the next byte and advances one, or fails at the end |
| ProofCodec.ByteReader.ReadBytes | Satisfiability.Challenge/challenge.cs:117 | returns what the decoding function reads and advances past it |
| ProofCodec.Write | Satisfiability.Challenge/challenge.cs:62-69 | the writer's stream grows by exactly the encoding of the solution |
| ProofCodec.Read | Satisfiability.Challenge/challenge.cs:109-119 | the result and the reader's new position are those of the decoding function |
| DpllSpec.ExtendsTrans | Satisfiability.Algorithms/DPLL.cs:101-103 | assignments only ever grow: extension is transitive |
| DpllSpec.InvIff | Satisfiability.Algorithms/DPLL.cs:64-94 | the recursion invariant is: well-formed clauses, no clause mentioning an assigned variable, keys among `1..n` |
| DpllSpec.Propagate | Satisfiability.Algorithms/DPLL.cs:165-178 | propagation never adds clauses |
| DpllSpec.Record | Satisfiability.Algorithms/DPLL.cs:101-103 | recording a literal extends the dictionary by its variable only, with the literal's sign unless the variable was already assigned |
| DpllSpec.PropagateMembers | Satisfiability.Algorithms/DPLL.cs:165-178 | after propagating `l`, the clauses are exactly those without `l`, each with its first `-l` removed |
| DpllSpec.PropagateSatisfies | Satisfiability.Algorithms/DPLL.cs:165-178 | for an input making `l` true, the propagated clauses are satisfied iff the original ones are |
| DpllSpec.PropagateBackStep | Satisfiability.Algorithms/DPLL.cs:166-177 | one backward step of the in-place loop moves the processed suffix by one clause |
| DpllSpec.PropagateForwardStep | Satisfiability.Algorithms/DPLL_aintgotno.cs:204-214 | one step of the snapshot loop, with the live position of the clause looked at |
| DpllSpec.PropagateInv | Satisfiability.Algorithms/DPLL.cs:165-178 | propagating an unassigned variable's literal and recording it keeps the invariant |
| DpllSpec.LastUnit | Satisfiability.Algorithms/DPLL.cs:98-100 | the index of the last one-literal clause, or -1 when there is none |
| DpllSpec.FirstUnit | Satisfiability.Algorithms/DPLL_aintgotno.cs:120-122 | the index of the first one-literal clause, or -1 when there is none |
| DpllSpec.RemoveUnits | Satisfiability.Algorithms/DPLL.cs:96-111 | unit propagation leaves no one-literal clause, no more clauses than before, and an extended dictionary |
| DpllSpec.UnitStepInv | Satisfiability.Algorithms/DPLL.cs:100-105 | the unit's variable is unassigned, and removing the unit and propagating it keeps the invariant |
| DpllSpec.UnitStepSatisfies | Satisfiability.Algorithms/DPLL.cs:100-105 | for an input making the unit true, one unit step keeps satisfaction both ways |
| DpllSpec.RemoveUnitsInv | Satisfiability.Algorithms/DPLL.cs:96-111 | unit propagation keeps the invariant |
| DpllSpec.RemoveUnitsSatisfies | Satisfiability.Algorithms/DPLL.cs:96-111 | for an input agreeing with the final dictionary, the clauses left are satisfied iff the original ones are |
| DpllSpec.PureConsistent | Satisfiability.Algorithms/DPLL.cs:135-144 | no literal is pure together with its negation |
| DpllSpec.PropagatePure | Satisfiability.Algorithms/DPLL.cs:113-133 | a clause stays iff it holds no pure literal; the dictionary is extended and every newly assigned pure literal gets its sign |
| DpllSpec.PropagatePureResult | Satisfiability.Algorithms/DPLL.cs:113-133 | pure-literal elimination equals filtering by the pure literals and recording each of them |
| DpllSpec.PropagatePureInv | Satisfiability.Algorithms/DPLL.cs:113-133 | pure-literal elimination keeps the invariant |
| DpllSpec.PropagatePureSatisfies | Satisfiability.Algorithms/DPLL.cs:113-133 | for an input agreeing with the new dictionary, the kept clauses are satisfied iff the original ones are |
| DpllSpec.Lowest | Satisfiability.Algorithms/DPLL.cs:80-88 | the branch variable is the lowest of `1..n` without an assignment |
| DpllSpec.LowestExists | Satisfiability.Algorithms/DPLL.cs:80-88 | while a clause without an empty clause remains, such a variable exists |
| DpllSpec.Simplify | Satisfiability.Algorithms/DPLL.cs:65-66 | after unit propagation and pure-literal elimination no one-literal clause is left, and the dictionary is extended |
| DpllSpec.SimplifyInv | Satisfiability.Algorithms/DPLL.cs:65-66 | simplification keeps the invariant and extends the dictionary |
| DpllSpec.SimplifySatisfies | Satisfiability.Algorithms/DPLL.cs:65-66 | for an input agreeing with the simplified dictionary, simplification keeps satisfaction both ways |
| DpllSpec.BranchReady | Satisfiability.Algorithms/DPLL.cs:80-88 | both branch copies keep the invariant and strictly shrink the unassigned variables |
| DpllSpec.Run | Satisfiability.Algorithms/DPLL.cs:64-94 | the result is empty or extends the given dictionary with keys in `1..n`; the list and dictionary left behind keep the invariant |
| DpllSpec.Branch | Satisfiability.Algorithms/DPLL.cs:74-93 | the branch result is empty or extends the simplified dictionary with keys in `1..n` |
| DpllSpec.RunBranches | Satisfiability.Algorithms/DPLL.cs:64-93 | when simplification neither empties the list nor leaves an empty clause, the call's result is the branch's |
| DpllSpec.BranchTakesTrue | Satisfiability.Algorithms/DPLL.cs:89-91 | a non-empty first result on the true copy is recomputed on that copy's changed list and dictionary |
| DpllSpec.BranchTakesFalse | Satisfiability.Algorithms/DPLL.cs:89-92 | otherwise a non-empty result on the false copy is recomputed the same way |
| DpllSpec.BranchFails | Satisfiability.Algorithms/DPLL.cs:89-93 | when both copies fail, the simplified dictionary itself is returned |
| DpllSpec.InputOf | Satisfiability.Algorithms/DPLL.cs:37-46 | one entry per variable: its assigned value, or true when it has none |
| DpllSpec.AgreesInputOf | Satisfiability.Algorithms/DPLL.cs:37-46 | the input built from a dictionary with keys in `1..n` agrees with it |
| DpllSpec.SolvedBySimplification | Satisfiability.Algorithms/DPLL.cs:64-69 | when simplification empties the list, the answer satisfies the original clauses |
| Dpll.PropagateAssignment | Satisfiability.Algorithms/DPLL.cs:165-178 | the list becomes the propagation of the literal |
| Dpll.RemoveLastUnit | Satisfiability.Algorithms/DPLL.cs:98-107 | the last unit clause is removed, its literal propagated and recorded |
| Dpll.RemoveUnitClauses | Satisfiability.Algorithms/DPLL.cs:96-111 | the list and dictionary become those of unit propagation with the backward scan, and the same dictionary is returned |
| Dpll.RecordPureLiterals | Satisfiability.Algorithms/DPLL.cs:118-127 | the clause is marked for removal iff it holds a pure literal, and its pure literals are recorded |
| Dpll.PropagatePureLiterals | Satisfiability.Algorithms/DPLL.cs:113-133 | the list and dictionary become those of pure-literal elimination |
| Dpll.BranchCopies | Satisfiability.Algorithms/DPLL.cs:74-85 | two fresh, distinct list copies propagated with `v` and `-v`, and two dictionary copies with `v` true and false, `v` being the lowest unassigned variable |
| Dpll.DpllRec | Satisfiability.Algorithms/DPLL.cs:64-94 | the result and the state left in the list and dictionary are exactly the recursion function's |
| Dpll.TryCopy | Satisfiability.Algorithms/DPLL.cs:86-91 | reports whether the copy's first run is non-empty, and then returns the second run's result |
| Dpll.DpllBranch | Satisfiability.Algorithms/DPLL.cs:74-93 | the branch returns the branch function's result |
| Dpll.TryBoth | Satisfiability.Algorithms/DPLL.cs:86-93 | a found result is the branch function's; otherwise the branch function falls back to the simplified dictionary |
| Dpll.InputFrom | Satisfiability.Algorithms/DPLL.cs:38-46 | the conversion loop builds the input of the dictionary |
| Dpll.Solve | Satisfiability.Algorithms/DPLL.cs:33-49 | the answer is the input of the dictionary that the recursion function returns from the empty dictionary |
| DpllForward.PropagateAssignment | Satisfiability.Algorithms/DPLL_aintgotno.cs:202-215 | the snapshot loop with `List.Remove` of the clause met leaves the propagation of the literal |
| DpllForward.RemoveFirstUnit | Satisfiability.Algorithms/DPLL_aintgotno.cs:120-131 | the first unit clause is removed, its literal propagated and recorded |
| DpllForward.RemoveUnitClauses | Satisfiability.Algorithms/DPLL_aintgotno.cs:116-135 | the list and dictionary become those of unit propagation with the forward scan |
| DpllForward.PropagatePureLiterals | Satisfiability.Algorithms/DPLL_aintgotno.cs:137-161 | the list and dictionary become those of pure-literal elimination |
| DpllForward.BranchCopies | Satisfiability.Algorithms/DPLL_aintgotno.cs:90-104 | two fresh copies propagated with `v` and `-v`, dictionaries with `v` true and false |
| DpllForward.DpllRec | Satisfiability.Algorithms/DPLL_aintgotno.cs:77-114 | the result and the state left behind are exactly the forward recursion function's |
| DpllForward.TryCopy | Satisfiability.Algorithms/DPLL_aintgotno.cs:105-112 | reports whether the copy's first run is non-empty, and then returns the second run's result |
| DpllForward.DpllBranch | Satisfiability.Algorithms/DPLL_aintgotno.cs:90-113 | the branch returns the branch function's result |
| DpllForward.TryBoth | Satisfiability.Algorithms/DPLL_aintgotno.cs:105-113 | a found result is the branch function's; otherwise it falls back to the simplified dictionary |
| DpllForward.Solve | Satisfiability.Algorithms/DPLL_aintgotno.cs:39-58 | the answer is the input of the dictionary that the forward recursion returns from the empty dictionary |
| FastSat.DeduceUnits | Satisfiability.Algorithms/FastSat.cs:49-63 | the unit pass only adds literals; a conflict needs a one-literal clause, and without one the set is unchanged |
| FastSat.Deduce | Satisfiability.Algorithms/FastSat.cs:31-66 | deduction adds at least every pure literal; a conflict needs a one-literal clause, and without one the result is the set plus the pure literals |
| FastSat.DeduceUnitsResult | Satisfiability.Algorithms/FastSat.cs:49-63 | without a conflict, the unit pass adds exactly the unit literals |
| FastSat.DeduceUnitsConflict | Satisfiability.Algorithms/FastSat.cs:49-63 | the unit pass throws iff some unit `[x]` meets `-x` in the set or among the earlier units |
| FastSat.DeduceResult | Satisfiability.Algorithms/FastSat.cs:31-66 | without a conflict, deduction adds exactly the pure and the unit literals, all of them literals of the clauses |
| FastSat.AddPureLiterals | Satisfiability.Algorithms/FastSat.cs:37-47 | every literal whose negation is absent from the literal set joins; the flag says whether the set grew |
| FastSat.AddUnitLiterals | Satisfiability.Algorithms/FastSat.cs:49-63 | throws `ArgumentException` iff the unit pass conflicts, else leaves its set and says whether it grew |
| FastSat.DeduceAssignments | Satisfiability.Algorithms/FastSat.cs:31-66 | throws iff deduction conflicts; otherwise the set is the deduced one and the flag says whether it grew |
| FastSat.ContainsAssigned | Satisfiability.Algorithms/FastSat.cs:72-79 | true iff the clause holds an assigned literal |
| FastSat.ApplyAssignments | Satisfiability.Algorithms/FastSat.cs:68-82 | the list keeps, in order, exactly the clauses holding no assigned literal, and is returned |
| FastSat.UnhitOrHit | Satisfiability.Algorithms/FastSat.cs:68-82 | a set hitting every clause that filtering kept hits every clause |
| FastSat.GuessStep | Satisfiability.Algorithms/FastSat.cs:100-112 | a surviving guess keeps the assignments and the guess |
| FastSat.GuessStepResult | Satisfiability.Algorithms/FastSat.cs:100-112 | a surviving guess keeps earlier assignments, adds only literals of the clauses, and leaves exactly the clauses the new set misses |
| FastSat.TryGuess | Satisfiability.Algorithms/FastSat.cs:86-112 | the try block on copies computes the guess step; the caller's list and set stay as they were |
| FastSat.RecursiveGuess | Satisfiability.Algorithms/FastSat.cs:84-123 | the guess set only shrinks, strictly when a guess is made; success implies every clause is hit by the result, which holds the starting assignments and adds only guess-set literals and literals of the clauses; no clauses means success, no guesses means failure |
| FastSat.ToList | Satisfiability.Algorithms/FastSat.cs:206 | the list holds exactly the set's elements |
| FastSat.Fill | Satisfiability.Algorithms/FastSat.cs:206-209 | filling keeps one entry per variable |
| FastSat.FillConsistent | Satisfiability.Algorithms/FastSat.cs:203-211 | with no literal listed beside its negation, each literal sets its variable to its sign, in any order, and other entries stay |
| FastSat.CreateSolution | Satisfiability.Algorithms/FastSat.cs:203-211 | the output is the all-false list with each literal of the set, in enumeration order, setting its variable |
| FastSat.SolutionSatisfies | Satisfiability.Algorithms/FastSat.cs:203-211 | a consistent set hitting every clause yields a satisfying input in any enumeration order |
| FastSat.Solve | Satisfiability.Algorithms/FastSat.cs:125-196 | a conflict in the first deduction gives the empty list; when the first deduction hits every clause, the answer is createSolution of that deduction; any answer is createSolution (all false, then each literal in some enumeration order) of a set of the input's literals that holds the first deduction and hits every clause, and it satisfies the clauses when that set is consistent |
| FastSat.GuessPhase | Satisfiability.Algorithms/FastSat.cs:180-195 | the guessing half of `Solve`: with no clause left it answers with the assignments; an answer is createSolution of a set between the assignments and the input's literals that hits every clause, satisfying them when consistent |
| FastSat.Answer | Satisfiability.Algorithms/FastSat.cs:203-211 | the all-false input filled by the set listed in some order, one entry per variable, satisfying the clauses when the set is consistent |
| FastSat.FillKeeps | Satisfiability.Algorithms/FastSat.cs:203-211 | a variable that no listed literal names keeps its entry |
| FastSat.GuessAssignsBothPolarities | Satisfiability.Algorithms/FastSat.cs:37-111 | on a three-clause example, guessing `1` succeeds with `{1, -1}` and the answer fails, though the clauses are satisfiable |
| FastSatFixed.DeduceUnitsConsistent | Satisfiability.Algorithms/FastSat.cs:49-63 | the unit pass keeps a consistent set consistent |
| FastSatFixed.DeduceFixedResult | Satisfiability.Algorithms/FastSat.cs:31-66 | checked deduction adds only fresh pure and unit literals of the clauses and keeps the set consistent |
| FastSatFixed.GuessStepFixedResult | Satisfiability.Algorithms/FastSat.cs:97-112 | a checked guess keeps every guarantee of the guess step and keeps the set consistent |
| FastSatFixed.AddFreshPureLiterals | Satisfiability.Algorithms/FastSat.cs:37-47 | a literal joins iff its negation is neither among the literals nor assigned |
| FastSatFixed.DeduceAssignmentsFixed | Satisfiability.Algorithms/FastSat.cs:31-66 | throws iff checked deduction conflicts; otherwise leaves its set |
| FastSatFixed.TryGuessFixed | Satisfiability.Algorithms/FastSat.cs:97-112 | the checked try block computes the checked guess step |
| FastSatFixed.RecursiveGuessFixed | Satisfiability.Algorithms/FastSat.cs:84-123 | as `RecursiveGuess`, and a successful result is consistent |
| FastSatFixed.SolveFixed | Satisfiability.Algorithms/FastSat.cs:125-196 | a conflict in the checked first deduction gives the empty list; when that deduction hits every clause it is the answer's set; any answer is createSolution of a consistent set of the input's literals holding the first deduction, has one entry per variable and satisfies the clauses |
| FastSatFixed.GuessPhaseFixed | Satisfiability.Algorithms/FastSat.cs:180-195 | the guessing half of the checked solver: with no clause left it answers with the assignments; an answer is createSolution of a consistent set holding the assignments and satisfies the clauses |
| FastSatFixed.GuessKeepsConsistent | Satisfiability.Algorithms/FastSat.cs:100-111 | on the same example, the checked guess `1` refuses the pure `-1` |
| DeterministicSat.Flatten | Satisfiability.Algorithms/DeterministicSATSolver.cs:40 | every literal of the flattened list is a literal of the clauses |
| DeterministicSat.FlattenLength | Satisfiability.Algorithms/DeterministicSATSolver.cs:40 | clauses of one length `L` flatten to `L` literals per clause |
| DeterministicSat.FlattenAt | Satisfiability.Algorithms/DeterministicSATSolver.cs:40 | flat index `j*L + p` holds literal `p` of clause `j` |
| DeterministicSat.FlattenLiterals | Satisfiability.Algorithms/DeterministicSATSolver.cs:40 | the flattened list holds exactly the literals of the clauses |
| DeterministicSat.Occurrences | Satisfiability.Algorithms/DeterministicSATSolver.cs:42-55 | at most one index per flat position, every index inside the flat list |
| DeterministicSat.Count | Satisfiability.Algorithms/DeterministicSATSolver.cs:45-51 | a variable's count is at most the flat length, and positive iff the variable occurs |
| DeterministicSat.OccurrencesExact | Satisfiability.Algorithms/DeterministicSATSolver.cs:42-55 | the recorded indices of a variable are increasing and are exactly the positions where it occurs |
| DeterministicSat.CountSplit | Satisfiability.Algorithms/DeterministicSATSolver.cs:45-51 | a variable's count is its positive plus its negative occurrences |
| DeterministicSat.LiteralCountPresent | Satisfiability.Algorithms/DeterministicSATSolver.cs:45-51 | a literal's count is positive iff it occurs |
| DeterministicSat.CountOccurrences | Satisfiability.Algorithms/DeterministicSATSolver.cs:29-55 | the counters hold, for every variable of `1..n`, its count, its negative count and its occurrence indices |
| DeterministicSat.FirstMax | Satisfiability.Algorithms/DeterministicSATSolver.cs:56-58 | the chosen variable is one of `1..n` |
| DeterministicSat.Decide | Satisfiability.Algorithms/DeterministicSATSolver.cs:56-62 | the round's variable is one of `1..n` |
| DeterministicSat.FirstMaxIsFirstMaximum | Satisfiability.Algorithms/DeterministicSATSolver.cs:56-58 | the chosen variable has the largest count, and every lower variable a smaller one |
| DeterministicSat.FirstMaxUnique | Satisfiability.Algorithms/DeterministicSATSolver.cs:56-58 | that choice is unique |
| DeterministicSat.MostFrequent | Satisfiability.Algorithms/DeterministicSATSolver.cs:56-58 | the stable descending sort's first key is the lowest variable of maximal count |
| DeterministicSat.DecideMajority | Satisfiability.Algorithms/DeterministicSATSolver.cs:61 | the value is true iff the variable occurs more often positively than negatively |
| DeterministicSat.ShapedUniform | Satisfiability.Algorithms/DeterministicSATSolver.cs:59 | the solver's clause length, that of the first clause, is every clause's |
| DeterministicSat.ChosenOccurs | Satisfiability.Algorithms/DeterministicSATSolver.cs:56-62 | the literal the round makes true occurs in the clauses |
| DeterministicSat.RoundProgress | Satisfiability.Algorithms/DeterministicSATSolver.cs:64-72 | each round removes at least one clause and keeps the clause shape |
| DeterministicSat.RemoveSatisfied | Satisfiability.Algorithms/DeterministicSATSolver.cs:64-72 | the backward removal by flat index removes exactly the clauses holding the chosen literal |
| DeterministicSat.RoundRemovesSatisfied | Satisfiability.Algorithms/DeterministicSATSolver.cs:61-72 | a clause is removed iff it has a literal of the chosen variable that the new value makes true |
| DeterministicSat.Round | Satisfiability.Algorithms/DeterministicSATSolver.cs:29-72 | the round sets the chosen variable to its majority value and removes the clauses that literal satisfies |
| DeterministicSat.Iteration | Satisfiability.Algorithms/DeterministicSATSolver.cs:26-84 | one loop iteration emits the identifier of the new input and returns it if accepted, or continues with fewer clauses |
| DeterministicSat.AllTrue | Satisfiability.Algorithms/DeterministicSATSolver.cs:24 | the start input is all true |
| DeterministicSat.Run | Satisfiability.Algorithms/DeterministicSATSolver.cs:26-85 | the rounds return the empty list or an accepted input of `n` entries |
| DeterministicSat.RunOutcome | Satisfiability.Algorithms/DeterministicSATSolver.cs:26-85 | the answer is empty or an accepted input; at least one emission when clauses exist, at most one per clause |
| DeterministicSat.RunKeepsUnmentioned | Satisfiability.Algorithms/DeterministicSATSolver.cs:24-85 | a variable in no clause keeps its start value in the answer |
| DeterministicSat.Solve | Satisfiability.Algorithms/DeterministicSATSolver.cs:21-86 | the answer and the emissions are those of the round function from the all-true input; the answer is empty or accepted |
| PureLiteral.Visited | Satisfiability.Algorithms/PureLiteralPropagation.cs:54 | an attempt visits `numVariables` variables, none when that is negative |
| PureLiteral.Free | Satisfiability.Algorithms/PureLiteralPropagation.cs:54-68 | an attempt draws at most one coin per variable |
| PureLiteral.AttemptInput | Satisfiability.Algorithms/PureLiteralPropagation.cs:51-68 | an attempt builds one entry per visited variable |
| PureLiteral.AttemptPrefix | Satisfiability.Algorithms/PureLiteralPropagation.cs:54-68 | later variables do not change earlier entries |
| PureLiteral.AttemptFixesPure | Satisfiability.Algorithms/PureLiteralPropagation.cs:57-66 | a pure `+v` gives true, a pure `-v` false, and a free variable reads its own draw |
| PureLiteral.PurePolarity | Satisfiability.Algorithms/PureLiteralPropagation.cs:57-62 | no variable is pure both ways, so each pure literal fixes its variable to its sign |
| PureLiteral.PureLiteralHolds | Satisfiability.Algorithms/PureLiteralPropagation.cs:57-62 | every pure literal is true in every attempt |
| PureLiteral.PureClausesSatisfied | Satisfiability.Algorithms/PureLiteralPropagation.cs:47-68 | every clause holding a pure literal is satisfied by every attempt, whatever the draws |
| PureLiteral.Attempt | Satisfiability.Algorithms/PureLiteralPropagation.cs:51-68 | the attempt loop builds the attempt function's input and consumes one draw per free variable |
| PureLiteral.NthAttempt | Satisfiability.Algorithms/PureLiteralPropagation.cs:49-68 | attempt `j` has one entry per variable |
| PureLiteral.Emissions | Satisfiability.Algorithms/PureLiteralPropagation.cs:71-74 | one identifier per attempt |
| PureLiteral.EmissionAt | Satisfiability.Algorithms/PureLiteralPropagation.cs:71-74 | emission `i` is the wrapped identifier of attempt `i` |
| PureLiteral.Run | Satisfiability.Algorithms/PureLiteralPropagation.cs:49-82 | no more attempts than allowed; the answer is empty or an accepted input of `n` entries |
| PureLiteral.RunOutcome | Satisfiability.Algorithms/PureLiteralPropagation.cs:49-82 | no more attempts than allowed, at least one when any is allowed; the answer is empty or an accepted input |
| PureLiteral.RunRejectsEarlier | Satisfiability.Algorithms/PureLiteralPropagation.cs:77-78 | every attempt before the last one made was rejected |
| PureLiteral.RunStopsOnAccept | Satisfiability.Algorithms/PureLiteralPropagation.cs:77-78 | fewer than all attempts are made only when the last one is accepted |
| PureLiteral.RunReturnsLast | Satisfiability.Algorithms/PureLiteralPropagation.cs:77-82 | the answer is the last attempt if accepted, else the empty list |
| PureLiteral.Solve | Satisfiability.Algorithms/PureLiteralPropagation.cs:44-84 | the answer and the emissions are those of the attempt function with the clauses' pure literals |
| PureLiteral.Attempts | Satisfiability.Algorithms/PureLiteralPropagation.cs:49-82 | the attempt loop's answer and emissions are those of the attempt function |
| PureLiteral.AttemptAndEmit | Satisfiability.Algorithms/PureLiteralPropagation.cs:51-74 | one attempt, its draws and its emission |
| Verifier.VerifySolutionOnly | Satisfiability.Challenge/challenge.cs:71-74 | true iff the input has one entry per variable and every clause has a literal it makes true |
| Verifier.GeneratedWellShaped | Satisfiability.Challenge/challenge.cs:130-154 | every generated challenge has the shape the solvers rely on |
| Verifier.WellShapedShaped | Satisfiability.Algorithms/DeterministicSATSolver.cs:59 | generated clauses share one length, as DeterministicSATSolver assumes |
| Verifier.LiteralsInRange | Satisfiability.Algorithms/FastSat.cs:208 | every literal of a generated challenge names a variable of the input |
| Verifier.Trace | Satisfiability.Challenge/challenge.cs:170-175 | the DPLL solvers and FastSat emit nothing, DeterministicSATSolver at most one identifier per clause, PureLiteralPropagation between one and 1000 |
| Verifier.RunSolver | Satisfiability.Challenge/challenge.cs:168-173 | creating and running the chosen solver emits exactly that solver's trace |
| Verifier.Recorded | Satisfiability.Challenge/challenge.cs:163 | four bytes per emission |
| Verifier.RecordedAt | Satisfiability.Challenge/challenge.cs:163 | bytes `4k..4k+4` are emission `k` |
| Verifier.RecordedPrefix | Satisfiability.Challenge/challenge.cs:163 | the recording of a prefix is a prefix of the recording |
| Verifier.Solve | Satisfiability.Challenge/challenge.cs:156-183 | times out iff the deadline passes before the last emission; otherwise the recording is the trace's bytes and the flag is `VerifySolutionOnly` of the answer |
| Verifier.Write | Satisfiability.Challenge/challenge.cs:160-165 | the recording callback fails at the first emission past the deadline, else produces the trace's bytes |
| Verifier.VerifyMethodOnly | Satisfiability.Challenge/challenge.cs:76-107 | the answer is the replay of the recorded bytes against the solver's trace |
| Verifier.Replay | Satisfiability.Challenge/challenge.cs:83-100 | true only when the stream is exactly one recorded integer per emission, each equal to it; a timeout only when the deadline is shorter than the trace |
| Verifier.Check | Satisfiability.Challenge/challenge.cs:83-100 | the replaying callback and the final position test compute the replay |
| Verifier.ReplayRecorded | Satisfiability.Challenge/challenge.cs:83-100 | replaying a recording plus extra bytes within the deadline answers whether nothing was extra, else times out |
| Verifier.VerifyRecorded | Satisfiability.Challenge/challenge.cs:76-107 | what `Challenge.Solve` recorded within the deadline replays to true |
| Verifier.VerifyLeftover | Satisfiability.Challenge/challenge.cs:100 | trailing bytes make the replay false |
| Verifier.VerifyTimeout | Satisfiability.Challenge/challenge.cs:85-86 | a deadline passing before the last emission makes the replay time out |
| Verifier.ReplayMismatch | Satisfiability.Challenge/challenge.cs:87-105 | a recorded integer that differs from the emission makes the replay false |
| Verifier.ReplayTruncated | Satisfiability.Challenge/challenge.cs:87 | a recording cut short fails with end-of-stream |

## Left out

- Wall-clock time: the deadline is the number of emissions that happen before it passes. The elapsed time inside a solver between emissions is not modelled.
- `System.Random` is not modelled: its draws are parameters. The generator reads a draw sequence per seed, PureLiteralPropagation a coin oracle, FastSat an unconstrained choice of guess.
- `HashSet` enumeration order is left open wherever the source iterates a set: FastSat's literal loop, its guess choice and `createSolution`.
- Reflection (`Activator.CreateInstance`) is the `Algorithm` datatype. The base class with its callbacks and its `Random` (Abstract.cs) is not part of this model.
- Program.cs, Tests.cs, RandomSolver.cs, Template.cs, collegeTry.cs and Gokul_algo.cs are not part of this model.
- The debug printing of DPLL (`printList`, `printDictionnary`) and the `debugMode` flag are output only and are left out.
- DeterministicSATSolver's `CounterIndexNegative` is filled but never read, and is left out.
- Dpll.Solve, DpllForward.Solve: require the clauses to be well-formed (in-range, distinct variables per clause), as every generated challenge is. On other input the recursion need not terminate.
- DpllForward.Solve: requires a non-negative variable count. `Enumerable.Range` throws on a negative count, and a generated challenge has at least 3 variables.
- FastSat.Solve: requires in-range literals, and promises satisfaction only when the chosen set is consistent. As written, the set can hold a literal and its negation (see Findings).
- FastSat.Solve, FastSatFixed.SolveFixed: once guessing starts, whether it succeeds depends on the random guesses, which the model leaves open. Only the deduction-only outcomes are pinned down.
- DeterministicSat.Solve: requires clauses of one common length over distinct in-range variables. The flat-index arithmetic depends on it.
- DeterministicSat.Solve: requires that length to be at least 1. With only empty clauses the source counts nothing, and `0.0 / 0.0` is NaN, so the value is false and no clause is removed. `IsInputSolution` then keeps failing, so the loop emits an identifier every round until the deadline passes. Generated clauses always have three literals, so the model does not cover this case.
- Challenge.ParseInt32: models `int.Parse` under the invariant culture: white space U+0009 to U+000D and U+0020 around the number, an ASCII `-` or `+`, ASCII digits. Culture-specific sign symbols and the trailing NUL characters .NET also tolerates are not modelled.
- Challenge.IsInputSolution: an out-of-range literal indexes past the input and throws in C#. Generated clauses never contain one, so that exception is not modelled.
- Challenge.NewChallenge: requires the draw sequence to hold valid draws: each index below its bound and enough draws for every clause.
- DPLL answers are not claimed to satisfy the clauses in general: both branches failing returns the simplified dictionary, which need not satisfy them.

## Findings

| source | as written | input that shows it | evidently intended | confidence | as-written member | corrected member |
|---|---|---|---|---|---|---|
| Satisfiability.Algorithms/FastSat.cs:37-47 | deduction adds a literal whose negation is missing from the remaining clauses even when that negation is already assigned, so a guess `g` followed by deduction can assign both `g` and `-g` | clauses `[[1,2],[-1,-2],[-1,2]]` with 2 variables, first guess `1`: the result is `{1,-1}` and the answer `[_, false]` fails a clause; `[false, true]` satisfies all | a literal joins only when its negation is not assigned, and a guess whose negation is assigned fails like a contradicting unit clause; every answer satisfies the clauses | high (not executed) | FastSat.GuessAssignsBothPolarities | FastSatFixed.SolveFixed |

`Verifier` runs FastSat as written. FastSat emits no identifiers, so its trace is the
same under either version.
