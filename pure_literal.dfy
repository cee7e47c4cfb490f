/** PureLiteralPropagation.cs: the pure literals of the clause list fix their variables
    (a pure `+v` makes `v` true, a pure `-v` makes it false); every other variable is
    drawn at random, `Random.NextDouble() > 0.5`. Up to 1000 attempts are made, each
    emitting its identifier and returning its input as soon as the callback accepts it.
    The random draws are an oracle `coins`: draw number `d` of the solver's generator is
    `coins(d)`, and the generator is shared by all attempts, so `drawn` counts the draws
    made so far. */
module PureLiteral {
  import opened Common
  import ClauseOps
  import Identifier

  /** The number of attempts before the solver gives up. */
  const MAX_ATTEMPTS: nat := 1000

  /** The number of variables an attempt visits, from 1 up to `numVariables`: none when
      that is negative. */
  function Visited(numVariables: int32): (n: nat)
    ensures numVariables >= 0 ==> n == numVariables as int
    ensures numVariables < 0 ==> n == 0
  {
    if numVariables < 0 then 0 else numVariables as int
  }

  /** Whether variable `v` is fixed by a pure literal of either polarity. */
  predicate Fixed(pure: set<int>, v: int)
  {
    v in pure || -v in pure
  }

  /** The number of variables among `1..k` that no pure literal fixes: the random draws
      one attempt over `k` variables makes. */
  function Free(k: nat, pure: set<int>): (f: nat)
    ensures f <= k
  {
    if k == 0 then 0 else Free(k - 1, pure) + (if Fixed(pure, k) then 0 else 1)
  }

  /** The input one attempt builds over the variables `1..k`, the first free variable
      reading draw `drawn`. */
  function AttemptInput(k: nat, pure: set<int>, coins: nat -> bool, drawn: nat): (input: seq<bool>)
    ensures |input| == k
  {
    if k == 0 then []
    else
      AttemptInput(k - 1, pure, coins, drawn) +
        [if k in pure then true else if -(k as int) in pure then false else coins(drawn + Free(k - 1, pure))]
  }

  /** Extending an attempt by one variable leaves the earlier entries alone. */
  lemma {:induction false} AttemptPrefix(k: nat, pure: set<int>, coins: nat -> bool, drawn: nat, v: nat)
    requires 1 <= v <= k
    ensures AttemptInput(k, pure, coins, drawn)[v - 1] == AttemptInput(v, pure, coins, drawn)[v - 1]
    decreases k
  {
    if v < k {
      AttemptPrefix(k - 1, pure, coins, drawn, v);
    }
  }

  /** A pure `+v` sets entry `v-1` true; a pure `-v` sets it false (when `+v` is not pure
      as well); a variable that no pure literal fixes reads its own draw. */
  lemma AttemptFixesPure(k: nat, pure: set<int>, coins: nat -> bool, drawn: nat, v: int)
    requires 1 <= v <= k
    ensures v in pure ==> AttemptInput(k, pure, coins, drawn)[v - 1]
    ensures -v in pure && v !in pure ==> !AttemptInput(k, pure, coins, drawn)[v - 1]
    ensures !Fixed(pure, v) ==> AttemptInput(k, pure, coins, drawn)[v - 1] == coins(drawn + Free(v - 1, pure))
  {
    AttemptPrefix(k, pure, coins, drawn, v);
  }

  /** With the pure literals of a clause list, no variable is pure in both polarities
      (a pure literal occurs, so its negation is not pure): a pure `+v` makes `v` true and
      a pure `-v` makes it false, in every attempt. */
  lemma PurePolarity(cs: Formula, k: nat, coins: nat -> bool, drawn: nat, v: int)
    requires 1 <= v <= k
    ensures !(v in PureLiterals(cs) && -v in PureLiterals(cs))
    ensures v in PureLiterals(cs) ==> AttemptInput(k, PureLiterals(cs), coins, drawn)[v - 1]
    ensures -v in PureLiterals(cs) ==> !AttemptInput(k, PureLiterals(cs), coins, drawn)[v - 1]
  {
    AttemptFixesPure(k, PureLiterals(cs), coins, drawn, v);
  }

  /** Every pure literal whose variable the attempt covers is true in every attempt,
      whatever the draws. */
  lemma PureLiteralHolds(cs: Formula, k: nat, coins: nat -> bool, drawn: nat, l: int)
    requires l in PureLiterals(cs) && 1 <= Abs(l) <= k
    ensures Holds(l, AttemptInput(k, PureLiterals(cs), coins, drawn))
  {
    PurePolarity(cs, k, coins, drawn, Abs(l));
  }

  /** Every clause containing a pure literal is satisfied by every attempt on a
      well-formed clause list, whatever the draws. */
  lemma PureClausesSatisfied(n: nat, cs: Formula, coins: nat -> bool, drawn: nat)
    requires WellFormed(n, cs)
    ensures forall c :: c in cs && Hits(c, PureLiterals(cs)) ==>
      exists l :: l in c && Holds(l, AttemptInput(n, PureLiterals(cs), coins, drawn))
  {
    forall c | c in cs && Hits(c, PureLiterals(cs))
      ensures exists l :: l in c && Holds(l, AttemptInput(n, PureLiterals(cs), coins, drawn))
    {
      var l :| l in c && l in PureLiterals(cs);
      PureLiteralHolds(cs, n, coins, drawn, l);
    }
  }

  /** The attempt loop over `k` variables, `input.Add(...)` per variable: a pure literal
      fixes the value, otherwise the next draw decides it. */
  method Attempt(numVariables: int32, pure: set<int>, coins: nat -> bool, drawn: nat)
    returns (input: seq<bool>, drawnAfter: nat)
    ensures input == AttemptInput(Visited(numVariables), pure, coins, drawn)
    ensures drawnAfter == drawn + Free(Visited(numVariables), pure)
  {
    input := [];
    drawnAfter := drawn;
    var variable := 1;
    while variable <= numVariables as int
      invariant 1 <= variable <= Visited(numVariables) + 1
      invariant input == AttemptInput(variable - 1, pure, coins, drawn)
      invariant drawnAfter == drawn + Free(variable - 1, pure)
    {
      if variable in pure {
        input := input + [true];
      } else if -variable in pure {
        input := input + [false];
      } else {
        input := input + [coins(drawnAfter)];
        drawnAfter := drawnAfter + 1;
      }
      variable := variable + 1;
    }
  }

  /** The draws made by `j` attempts of `f` draws each. */
  function Draws(f: nat, j: nat): nat
  {
    if j == 0 then 0 else Draws(f, j - 1) + f
  }

  /** The input of attempt number `j` (from 0): every attempt makes the same number of
      draws from the shared generator, so attempt `j` starts after `j` times that many. */
  function NthAttempt(n: nat, pure: set<int>, coins: nat -> bool, j: nat): (input: seq<bool>)
    ensures |input| == n
  {
    AttemptInput(n, pure, coins, Draws(Free(n, pure), j))
  }

  /** What the solver does from attempt number `j` on, with `attempts` attempts left:
      the accepted input (or the empty list) and the number of attempts it makes. */
  function Run(n: nat, pure: set<int>, coins: nat -> bool, accept: seq<bool> -> bool,
               j: nat, attempts: nat): (r: (seq<bool>, nat))
    ensures r.1 <= attempts
    ensures r.0 == [] || (|r.0| == n && accept(r.0))
    decreases attempts
  {
    if attempts == 0 then ([], 0)
    else if accept(NthAttempt(n, pure, coins, j)) then (NthAttempt(n, pure, coins, j), 1)
    else
      var r := Run(n, pure, coins, accept, j + 1, attempts - 1);
      (r.0, r.1 + 1)
  }

  /** One attempt of the run: it returns the attempt if accepted, and otherwise goes on
      with the next one, counting this one. */
  lemma RunStep(n: nat, pure: set<int>, coins: nat -> bool, accept: seq<bool> -> bool, j: nat, attempts: nat)
    requires attempts > 0
    ensures var r := Run(n, pure, coins, accept, j, attempts);
      var next := Run(n, pure, coins, accept, j + 1, attempts - 1);
      if accept(NthAttempt(n, pure, coins, j)) then r == (NthAttempt(n, pure, coins, j), 1)
      else r == (next.0, next.1 + 1)
  {
  }

  /** The identifiers emitted by the first `k` attempts, one per attempt, in order. */
  function Emissions(n: nat, pure: set<int>, coins: nat -> bool, k: nat): (t: seq<int32>)
    ensures |t| == k
  {
    if k == 0 then []
    else Emissions(n, pure, coins, k - 1) + [Wrap32(Identifier.TrueIndexProduct(NthAttempt(n, pure, coins, k - 1)))]
  }

  /** Emission `i` is the identifier of the input of attempt `i`: the wrapping 32-bit
      product of its true indices. */
  lemma {:induction false} EmissionAt(n: nat, pure: set<int>, coins: nat -> bool, k: nat, i: nat)
    requires i < k
    ensures Emissions(n, pure, coins, k)[i] == Wrap32(Identifier.TrueIndexProduct(NthAttempt(n, pure, coins, i)))
  {
    if i < k - 1 {
      EmissionAt(n, pure, coins, k - 1, i);
    }
  }

  /** The solver makes at most `attempts` attempts and at least one, and returns an
      accepted input of `n` entries or the empty list. */
  lemma {:induction false} RunOutcome(n: nat, pure: set<int>, coins: nat -> bool,
                                      accept: seq<bool> -> bool, j: nat, attempts: nat)
    ensures var r := Run(n, pure, coins, accept, j, attempts);
      && r.1 <= attempts
      && (attempts > 0 ==> 1 <= r.1)
      && (r.0 == [] || (|r.0| == n && accept(r.0)))
    decreases attempts
  {
    if attempts > 0 && !accept(NthAttempt(n, pure, coins, j)) {
      RunOutcome(n, pure, coins, accept, j + 1, attempts - 1);
    }
  }

  /** The solver stops at the first accepted attempt: every attempt before the last one
      it makes was rejected. */
  lemma {:induction false} RunRejectsEarlier(n: nat, pure: set<int>, coins: nat -> bool,
                                             accept: seq<bool> -> bool, j: nat, attempts: nat)
    ensures forall i :: j <= i < j + Run(n, pure, coins, accept, j, attempts).1 - 1 ==>
      !accept(NthAttempt(n, pure, coins, i))
    decreases attempts
  {
    if attempts > 0 && !accept(NthAttempt(n, pure, coins, j)) {
      RunRejectsEarlier(n, pure, coins, accept, j + 1, attempts - 1);
    }
  }

  /** The solver makes fewer than `attempts` attempts only when the last one it makes is
      accepted. */
  lemma {:induction false} RunStopsOnAccept(n: nat, pure: set<int>, coins: nat -> bool,
                                            accept: seq<bool> -> bool, j: nat, attempts: nat)
    ensures 0 < Run(n, pure, coins, accept, j, attempts).1 < attempts ==>
      accept(NthAttempt(n, pure, coins, j + Run(n, pure, coins, accept, j, attempts).1 - 1))
    decreases attempts
  {
    if attempts > 0 && !accept(NthAttempt(n, pure, coins, j)) {
      RunStopsOnAccept(n, pure, coins, accept, j + 1, attempts - 1);
    }
  }

  /** The solver returns the last attempt's input exactly when that attempt was accepted,
      and the empty list otherwise. */
  lemma {:induction false} RunReturnsLast(n: nat, pure: set<int>, coins: nat -> bool,
                                          accept: seq<bool> -> bool, j: nat, attempts: nat)
    ensures Run(n, pure, coins, accept, j, attempts).0 ==
      var last := j + Run(n, pure, coins, accept, j, attempts).1 - 1;
      if j <= last && accept(NthAttempt(n, pure, coins, last)) then NthAttempt(n, pure, coins, last) else []
    decreases attempts
  {
    if attempts > 0 && !accept(NthAttempt(n, pure, coins, j)) {
      RunOutcome(n, pure, coins, accept, j + 1, attempts - 1);
      RunReturnsLast(n, pure, coins, accept, j + 1, attempts - 1);
    }
  }

  /** After `done` rejected attempts out of `limit`, the whole run is what the remaining
      attempts give, with the rejected ones counted. */
  ghost predicate RunFrom(n: nat, pure: set<int>, coins: nat -> bool, accept: seq<bool> -> bool,
                          done: nat, limit: nat)
  {
    done <= limit &&
    var rest := Run(n, pure, coins, accept, done, limit - done);
    Run(n, pure, coins, accept, 0, limit) == (rest.0, done + rest.1)
  }

  /** A run that reaches an accepted attempt returns its input after counting it. */
  lemma RunFromAccepts(n: nat, pure: set<int>, coins: nat -> bool, accept: seq<bool> -> bool,
                       done: nat, limit: nat)
    requires done < limit && RunFrom(n, pure, coins, accept, done, limit)
    requires accept(NthAttempt(n, pure, coins, done))
    ensures Run(n, pure, coins, accept, 0, limit) == (NthAttempt(n, pure, coins, done), done + 1)
  {
    RunStep(n, pure, coins, accept, done, limit - done);
  }

  /** A rejected attempt moves the run on by one. */
  lemma RunFromRejects(n: nat, pure: set<int>, coins: nat -> bool, accept: seq<bool> -> bool,
                       done: nat, limit: nat)
    requires done < limit && RunFrom(n, pure, coins, accept, done, limit)
    requires !accept(NthAttempt(n, pure, coins, done))
    ensures RunFrom(n, pure, coins, accept, done + 1, limit)
  {
    RunStep(n, pure, coins, accept, done, limit - done);
  }

  /** `Solve`: the pure literals once, then the attempts. */
  method Solve(numVariables: int32, clauses: Formula, coins: nat -> bool, accept: seq<bool> -> bool)
    returns (output: seq<bool>, trace: seq<int32>)
    ensures output == Run(Visited(numVariables), PureLiterals(clauses), coins, accept, 0, MAX_ATTEMPTS).0
    ensures trace == Emissions(Visited(numVariables), PureLiterals(clauses), coins,
                               Run(Visited(numVariables), PureLiterals(clauses), coins, accept, 0, MAX_ATTEMPTS).1)
  {
    var pureLiterals := ClauseOps.GetPureLiterals(clauses);
    output, trace := Attempts(numVariables, pureLiterals, coins, accept);
  }

  /** The attempt loop of `Solve`: up to 1000 attempts, each emitting the identifier of
      its input and returning it if the callback accepts it; the empty list after the last
      rejected attempt. */
  method Attempts(numVariables: int32, pure: set<int>, coins: nat -> bool, accept: seq<bool> -> bool)
    returns (output: seq<bool>, trace: seq<int32>)
    ensures output == Run(Visited(numVariables), pure, coins, accept, 0, MAX_ATTEMPTS).0
    ensures trace == Emissions(Visited(numVariables), pure, coins, Run(Visited(numVariables), pure, coins, accept, 0, MAX_ATTEMPTS).1)
  {
    ghost var n := Visited(numVariables);
    var drawn := 0;
    trace := [];
    for attempt := 0 to MAX_ATTEMPTS
      invariant drawn == Draws(Free(n, pure), attempt)
      invariant trace == Emissions(n, pure, coins, attempt)
      invariant RunFrom(n, pure, coins, accept, attempt, MAX_ATTEMPTS)
    {
      var input;
      input, drawn, trace := AttemptAndEmit(numVariables, pure, coins, drawn, attempt, trace);
      if accept(input) {
        RunFromAccepts(n, pure, coins, accept, attempt, MAX_ATTEMPTS);
        return input, trace;
      }
      RunFromRejects(n, pure, coins, accept, attempt, MAX_ATTEMPTS);
    }
    output := [];
  }

  /** One attempt and its emission: the input of attempt `k`, the draws made so far, and
      the identifiers emitted so far. */
  method AttemptAndEmit(numVariables: int32, pure: set<int>, coins: nat -> bool, drawn: nat,
                        ghost k: nat, trace: seq<int32>)
    returns (input: seq<bool>, drawnAfter: nat, traceAfter: seq<int32>)
    requires drawn == Draws(Free(Visited(numVariables), pure), k)
    requires trace == Emissions(Visited(numVariables), pure, coins, k)
    ensures input == NthAttempt(Visited(numVariables), pure, coins, k)
    ensures drawnAfter == Draws(Free(Visited(numVariables), pure), k + 1)
    ensures traceAfter == Emissions(Visited(numVariables), pure, coins, k + 1)
  {
    input, drawnAfter := Attempt(numVariables, pure, coins, drawn);
    var uniqueInt := Identifier.UniqueInt(input);
    traceAfter := trace + [uniqueInt];
  }
}
