/** Satisfiability.Challenge's two runs of a solver: `Challenge.Solve` records every value
    the solver emits as a little-endian 32-bit integer, and `Solution.VerifyMethodOnly`
    runs the same solver again and checks each emission against the next recorded
    integer. The solver class is a parameter (`Algorithm`), the deadline is the number of
    emissions that happen before it passes (`budget`), and the solver's random generator,
    seeded with the challenge's seed, is the oracle `flips`. */
module Verifier {
  import opened Common
  import ProofCodec
  import Challenge
  import DpllSpec
  import Dpll
  import DpllForward
  import FastSat
  import DeterministicSat
  import PureLiteral

  /** The solver classes that can be handed to `Solve` and `VerifyMethodOnly`. */
  datatype Algorithm = DPLL | DPLLAintGotNo | FastSatSolver | DeterministicSATSolver | PureLiteralPropagation

  /** `Solution.VerifySolutionOnly`: the recorded input alone solves the challenge. */
  predicate VerifySolutionOnly(solution: ProofCodec.Solution, challenge: Challenge.Challenge): (ok: bool)
    ensures ok <==>
      && |solution.input| == challenge.difficulty.numVariables as int
      && forall c :: c in challenge.clauses ==> exists l :: l in c && Holds(l, solution.input)
  {
    Challenge.IsInputSolution(challenge, solution.input)
  }

  /** `SolveResult`: whether the returned input solves the challenge, and the solution
      with its recorded trace. */
  datatype SolveResult = SolveResult(isSolution: bool, solution: ProofCodec.Solution)

  /** What the generator guarantees of a challenge: a non-negative variable count and
      clauses of three distinct in-range variables. */
  predicate WellShaped(challenge: Challenge.Challenge)
  {
    && 0 <= challenge.difficulty.numVariables
    && WellFormed(challenge.difficulty.numVariables, challenge.clauses)
    && forall c :: c in challenge.clauses ==> |c| == Challenge.NUM_LITERALS_PER_CLAUSE
  }

  /** Every challenge the generator builds is well shaped. */
  lemma GeneratedWellShaped(difficulty: Challenge.Difficulty, draws: seq<int>)
    requires difficulty.Valid()
    requires Challenge.ValidDraws(draws, difficulty.numVariables, Challenge.ClauseCount(difficulty))
    ensures forall seed :: WellShaped(Challenge.Challenge(seed, difficulty, Challenge.Generated(difficulty, draws)))
  {
    Challenge.GeneratedWellFormed(difficulty, draws);
  }

  /** The callback both runs hand to the solver: `challenge.IsInputSolution`. */
  function Accept(challenge: Challenge.Challenge): seq<bool> -> bool
  {
    input => Challenge.IsInputSolution(challenge, input)
  }

  /** Clauses of one common nonzero length are what DeterministicSATSolver expects. */
  lemma WellShapedShaped(challenge: Challenge.Challenge)
    requires WellShaped(challenge)
    ensures DeterministicSat.Shaped(challenge.difficulty.numVariables, challenge.clauses)
  {
    var cs := challenge.clauses;
    if cs != [] {
      assert cs[0] in cs;
    }
  }

  /** The values the solver emits on a challenge. The two DPLL solvers and FastSat never
      emit; DeterministicSATSolver emits once per round and PureLiteralPropagation once
      per attempt. */
  function Trace(algorithm: Algorithm, challenge: Challenge.Challenge, flips: int32 -> nat -> bool): (t: seq<int32>)
    requires WellShaped(challenge)
    ensures algorithm.DPLL? || algorithm.DPLLAintGotNo? || algorithm.FastSatSolver? ==> t == []
    ensures algorithm.DeterministicSATSolver? ==> |t| <= |challenge.clauses|
    ensures algorithm.PureLiteralPropagation? ==> 1 <= |t| <= PureLiteral.MAX_ATTEMPTS
  {
    var n := challenge.difficulty.numVariables;
    match algorithm
    case DeterministicSATSolver =>
      WellShapedShaped(challenge);
      DeterministicSat.RunOutcome(n as int, challenge.clauses, DeterministicSat.AllTrue(n as int), Accept(challenge));
      DeterministicSat.Run(n as int, challenge.clauses, DeterministicSat.AllTrue(n as int), Accept(challenge)).1
    case PureLiteralPropagation =>
      var pure := PureLiterals(challenge.clauses);
      var coins := flips(challenge.seed);
      var m := PureLiteral.Visited(n);
      PureLiteral.RunOutcome(m, pure, coins, Accept(challenge), 0, PureLiteral.MAX_ATTEMPTS);
      PureLiteral.Emissions(m, pure, coins,
        PureLiteral.Run(m, pure, coins, Accept(challenge), 0, PureLiteral.MAX_ATTEMPTS).1)
    case _ => []
  }

  /** `Activator.CreateInstance(algorithm, ...)` followed by `solver.Solve(...)` on a copy
      of the challenge's clauses: the returned input and the values emitted. */
  method RunSolver(algorithm: Algorithm, challenge: Challenge.Challenge, flips: int32 -> nat -> bool)
    returns (output: seq<bool>, trace: seq<int32>)
    requires WellShaped(challenge)
    ensures trace == Trace(algorithm, challenge, flips)
  {
    var n := challenge.difficulty.numVariables;
    var clauses := new ClauseList(challenge.clauses);
    match algorithm {
      case DPLL =>
        DpllSpec.InvIff(n as int, clauses.items, map[]);
        output := Dpll.Solve(n, clauses);
        trace := [];
      case DPLLAintGotNo =>
        DpllSpec.InvIff(n as int, clauses.items, map[]);
        output := DpllForward.Solve(n, clauses);
        trace := [];
      case FastSatSolver =>
        LiteralsInRange(challenge);
        ghost var solved, chosen, order;
        output, solved, chosen, order := FastSat.Solve(n, clauses);
        trace := [];
      case DeterministicSATSolver =>
        WellShapedShaped(challenge);
        output, trace := DeterministicSat.Solve(n, clauses, Accept(challenge));
      case PureLiteralPropagation =>
        output, trace := PureLiteral.Solve(n, challenge.clauses, flips(challenge.seed), Accept(challenge));
    }
  }

  lemma LiteralsInRange(challenge: Challenge.Challenge)
    requires WellShaped(challenge)
    ensures forall l :: l in Literals(challenge.clauses) ==> InRange(challenge.difficulty.numVariables, l)
  {
  }

  // ---- The recorded trace ----

  /** What `writer.Write(update)` leaves in the stream after the emissions `t`. */
  function Recorded(t: seq<int32>): (b: seq<ProofCodec.byte>)
    ensures |b| == 4 * |t|
  {
    if t == [] then [] else Recorded(t[..|t| - 1]) + ProofCodec.Int32Bytes(t[|t| - 1])
  }

  /** The recorded bytes of emission `k` are the four bytes at `4k`. */
  lemma {:induction false} RecordedAt(t: seq<int32>, k: nat)
    requires k < |t|
    ensures Recorded(t)[4 * k..4 * k + 4] == ProofCodec.Int32Bytes(t[k])
  {
    var init := t[..|t| - 1];
    if k < |t| - 1 {
      RecordedAt(init, k);
      assert Recorded(t)[..4 * |init|] == Recorded(init);
    }
  }

  /** The recording of a prefix of the emissions is the prefix of the recording. */
  lemma {:induction false} RecordedPrefix(t: seq<int32>, k: nat)
    requires k <= |t|
    ensures Recorded(t)[..4 * k] == Recorded(t[..k])
  {
    if k < |t| {
      RecordedPrefix(t[..|t| - 1], k);
      assert t[..|t| - 1][..k] == t[..k];
      assert Recorded(t)[..4 * (|t| - 1)] == Recorded(t[..|t| - 1]);
    } else {
      assert t[..k] == t;
    }
  }

  /** `Challenge.Solve`: run the solver, writing each emission to the stream once the
      deadline check passes, then report whether the input solves the challenge together
      with the recorded stream. A passed deadline escapes as `Timeout`. */
  method Solve(challenge: Challenge.Challenge, algorithm: Algorithm, flips: int32 -> nat -> bool, budget: nat)
    returns (r: Result<SolveResult, Error>)
    requires WellShaped(challenge)
    ensures r.Err? <==> budget < |Trace(algorithm, challenge, flips)|
    ensures r.Err? ==> r.error == Timeout
    ensures r.Ok? ==> r.value.solution.stateUpdates == Recorded(Trace(algorithm, challenge, flips))
    ensures r.Ok? ==> r.value.isSolution == VerifySolutionOnly(r.value.solution, challenge)
  {
    var input, trace := RunSolver(algorithm, challenge, flips);
    var recorded := Write(trace, budget);
    if recorded.Err? {
      return Err(recorded.error);
    }
    r := Ok(SolveResult(Challenge.IsInputSolution(challenge, input), ProofCodec.Solution(input, recorded.value)));
  }

  /** The solver's `Update` callback inside `Challenge.Solve`, over the whole run: each
      emission first checks the deadline, then is written to the stream. */
  method Write(trace: seq<int32>, budget: nat) returns (r: Result<seq<ProofCodec.byte>, Error>)
    ensures r.Err? <==> budget < |trace|
    ensures r.Err? ==> r.error == Timeout
    ensures r.Ok? ==> r.value == Recorded(trace)
  {
    var writer := new ProofCodec.ByteWriter();
    for k := 0 to |trace|
      invariant k <= budget
      invariant writer.bytes == Recorded(trace[..k])
    {
      if budget <= k {
        return Err(Timeout);
      }
      writer.WriteInt32(trace[k]);
      assert trace[..k + 1][..k] == trace[..k];
    }
    assert trace[..|trace|] == trace;
    r := Ok(writer.bytes);
  }

  // ---- The replay ----

  /** What `VerifyMethodOnly` answers once emissions `0..k-1` have matched the first `4k`
      bytes of `data`: at emission `k` a passed deadline escapes as `Timeout`, a short
      stream as `EndOfStream`, a different integer answers false (the mismatch exception
      is caught), and after the last emission the answer is whether the stream is used
      up. */
  function Replay(data: seq<ProofCodec.byte>, t: seq<int32>, budget: nat, k: nat): (r: Result<bool, Error>)
    requires k <= |t|
    ensures r == Ok(true) ==>
      && |data| == 4 * |t|
      && forall j :: k <= j < |t| ==> ProofCodec.Int32At(data, 4 * j) == Ok(t[j])
    ensures r == Err(Timeout) ==> budget < |t|
    decreases |t| - k
  {
    if k == |t| then Ok(4 * k == |data|)
    else if budget <= k then Err(Timeout)
    else
      match ProofCodec.Int32At(data, 4 * k)
      case Err(e) => Err(e)
      case Ok(x) => if x != t[k] then Ok(false) else Replay(data, t, budget, k + 1)
  }

  /** `Solution.VerifyMethodOnly`: run the solver again over a reader of the recorded
      stream; each emission checks the deadline, reads the next integer and compares. */
  method VerifyMethodOnly(solution: ProofCodec.Solution, challenge: Challenge.Challenge, algorithm: Algorithm,
                          flips: int32 -> nat -> bool, budget: nat)
    returns (r: Result<bool, Error>)
    requires WellShaped(challenge)
    ensures r == Replay(solution.stateUpdates, Trace(algorithm, challenge, flips), budget, 0)
  {
    var input, trace := RunSolver(algorithm, challenge, flips);
    r := Check(solution.stateUpdates, trace, budget);
  }

  /** The solver's `Update` callback inside `VerifyMethodOnly`, over the whole run: each
      emission checks the deadline, reads the next integer and compares; after the run the
      answer is whether the reader reached the end of the stream. */
  method Check(data: seq<ProofCodec.byte>, trace: seq<int32>, budget: nat) returns (r: Result<bool, Error>)
    ensures r == Replay(data, trace, budget, 0)
  {
    var reader := new ProofCodec.ByteReader(data);
    for k := 0 to |trace|
      invariant reader.Valid() && reader.data == data && reader.position == 4 * k
      invariant Replay(data, trace, budget, 0) == Replay(data, trace, budget, k)
    {
      if budget <= k {
        return Err(Timeout);
      }
      var update := reader.ReadInt32();
      if update.Err? {
        return Err(update.error);
      }
      if update.value != trace[k] {
        return Ok(false);
      }
    }
    r := Ok(reader.position == |reader.data|);
  }

  // ---- What the replay answers ----

  /** Replaying the recorded stream followed by `extra` bytes, within the deadline, gets
      through every emission and answers whether nothing was left over; with a deadline
      that passes first it escapes as `Timeout`. */
  lemma {:induction false} ReplayRecorded(t: seq<int32>, extra: seq<ProofCodec.byte>, budget: nat, k: nat)
    requires k <= |t| && k <= budget
    ensures Replay(Recorded(t) + extra, t, budget, k) ==
      if |t| <= budget then Ok(extra == []) else Err(Timeout)
    decreases |t| - k
  {
    var data := Recorded(t) + extra;
    if k < |t| && k < budget {
      RecordedAt(t, k);
      assert data[4 * k..4 * k + 4] == Recorded(t)[4 * k..4 * k + 4];
      assert ProofCodec.Int32At(data, 4 * k) == Ok(t[k]);
      ReplayRecorded(t, extra, budget, k + 1);
    }
  }

  /** The round trip: `VerifyMethodOnly` on the stream `Solve` recorded, within the
      deadline, answers true. */
  lemma VerifyRecorded(t: seq<int32>, budget: nat)
    requires |t| <= budget
    ensures Replay(Recorded(t), t, budget, 0) == Ok(true)
  {
    ReplayRecorded(t, [], budget, 0);
    assert Recorded(t) + [] == Recorded(t);
  }

  /** Leftover recorded bytes after the last emission answer false. */
  lemma VerifyLeftover(t: seq<int32>, extra: seq<ProofCodec.byte>, budget: nat)
    requires |t| <= budget && extra != []
    ensures Replay(Recorded(t) + extra, t, budget, 0) == Ok(false)
  {
    ReplayRecorded(t, extra, budget, 0);
  }

  /** A deadline that passes before the last emission escapes as `Timeout`. */
  lemma VerifyTimeout(t: seq<int32>, budget: nat)
    requires budget < |t|
    ensures Replay(Recorded(t), t, budget, 0) == Err(Timeout)
  {
    ReplayRecorded(t, [], budget, 0);
    assert Recorded(t) + [] == Recorded(t);
  }

  /** A stream whose first `k` integers match and whose next integer differs from
      emission `k` answers false, whatever follows. */
  lemma {:induction false} ReplayMismatch(t: seq<int32>, k: nat, x: int32, rest: seq<ProofCodec.byte>, budget: nat, i: nat)
    requires i <= k < |t| && k < budget && x != t[k]
    ensures Replay(Recorded(t[..k]) + ProofCodec.Int32Bytes(x) + rest, t, budget, i) == Ok(false)
    decreases k - i
  {
    var data := Recorded(t[..k]) + ProofCodec.Int32Bytes(x) + rest;
    if i < k {
      RecordedAt(t[..k], i);
      assert data[4 * i..4 * i + 4] == Recorded(t[..k])[4 * i..4 * i + 4];
      assert ProofCodec.Int32At(data, 4 * i) == Ok(t[i]);
      ReplayMismatch(t, k, x, rest, budget, i + 1);
    } else {
      assert data[4 * k..4 * k + 4] == ProofCodec.Int32Bytes(x);
    }
  }

  /** A recorded stream cut short before its end, within the deadline, escapes as
      `EndOfStream` at the first integer it no longer holds whole. */
  lemma {:induction false} ReplayTruncated(t: seq<int32>, m: nat, budget: nat, i: nat)
    requires m < 4 * |t| && |t| <= budget && 4 * i <= m
    ensures Replay(Recorded(t)[..m], t, budget, i) == Err(EndOfStream)
    decreases m - 4 * i
  {
    var data := Recorded(t)[..m];
    if 4 * i + 4 <= m {
      RecordedAt(t, i);
      assert data[4 * i..4 * i + 4] == Recorded(t)[4 * i..4 * i + 4];
      assert ProofCodec.Int32At(data, 4 * i) == Ok(t[i]);
      ReplayTruncated(t, m, budget, i + 1);
    }
  }
}
