/** FastSat.cs with the consistency checks its deduction evidently intends. As written,
    deduceAssignments adds every literal whose negation does not occur among the clauses
    left, even when that negation is already assigned, and recursiveGuess adds a guess
    whose negation is already assigned; either way the assignments can hold a literal
    and its negation (`FastSat.GuessAssignsBothPolarities`). Here a pure literal joins
    only when its negation is not assigned, and a guess whose negation is assigned fails
    like a contradicting unit clause. With both checks the assignments stay consistent
    and every answer the solver gives satisfies the clauses. */
module FastSatFixed {
  import opened Common
  import opened ClauseOps
  import opened FastSat

  /** Every literal of the clauses names a variable. */
  predicate NonzeroLiterals(cs: Formula)
  {
    forall l :: l in Literals(cs) ==> l != 0
  }

  /** The pure literals whose negation is not assigned yet. */
  function FreshPure(cs: Formula, a: set<int>): set<int>
  {
    set l | l in PureLiterals(cs) && -l !in a
  }

  /** deduceAssignments with the check: the fresh pure literals join the set, then the
      unit clauses are taken in order; `None` stands for the `ArgumentException`. */
  function DeduceFixed(cs: Formula, a: set<int>): Option<set<int>>
  {
    DeduceUnits(cs, a + FreshPure(cs, a))
  }

  /** The clauses after the first have no literal the whole list lacks. */
  lemma LiteralsTail(cs: Formula)
    requires cs != []
    ensures Literals(cs[1..]) <= Literals(cs)
    ensures forall l :: l in cs[0] ==> l in Literals(cs)
  {
    forall l | l in Literals(cs[1..])
      ensures l in Literals(cs)
    {
      var c :| c in cs[1..] && l in c;
      assert c in cs;
    }
    assert cs[0] in cs;
  }

  /** Taking the unit clauses in order keeps a consistent set consistent: a unit
      literal joins only when its negation is absent. */
  lemma {:induction false} DeduceUnitsConsistent(cs: Formula, a: set<int>)
    requires Consistent(a) && NonzeroLiterals(cs)
    ensures DeduceUnits(cs, a).Some? ==> Consistent(DeduceUnits(cs, a).value)
  {
    if cs != [] {
      LiteralsTail(cs);
      if |cs[0]| == 1 && -cs[0][0] !in a {
        var x := cs[0][0];
        assert x in cs[0];
        assert x != 0;
        DeduceUnitsConsistent(cs[1..], a + {x});
      } else if |cs[0]| != 1 {
        DeduceUnitsConsistent(cs[1..], a);
      }
    }
  }

  /** With the check, deduction keeps a consistent set consistent, and adds only fresh
      pure literals and unit literals, all of them literals of the clauses. */
  lemma DeduceFixedResult(cs: Formula, a: set<int>)
    requires Consistent(a) && NonzeroLiterals(cs)
    ensures DeduceFixed(cs, a).Some? ==>
      && DeduceFixed(cs, a).value == a + FreshPure(cs, a) + UnitLiterals(cs)
      && DeduceFixed(cs, a).value <= a + Literals(cs)
      && Consistent(DeduceFixed(cs, a).value)
  {
    var a1 := a + FreshPure(cs, a);
    forall y | y in a1
      ensures -y !in a1
    {
      if y in FreshPure(cs, a) {
        assert -y !in PureLiterals(cs);
      }
    }
    DeduceUnitsResult(cs, a1);
    DeduceUnitsConsistent(cs, a1);
    forall x | x in UnitLiterals(cs)
      ensures x in Literals(cs)
    {
      var c :| c in cs && |c| == 1 && c[0] == x;
      assert x in c;
    }
  }

  /** The try block of recursiveGuess with the check: a guess whose negation is
      assigned fails; otherwise add it, drop the clauses it satisfies, deduce, and drop
      again when the deduction found something new. */
  function GuessStepFixed(cs: Formula, a: set<int>, guess: int): Option<(Formula, set<int>)>
  {
    if -guess in a then None
    else
      var a1 := a + {guess};
      var c1 := Unhit(cs, a1);
      match DeduceFixed(c1, a1)
      case None => None
      case Some(a2) => Some((if a2 != a1 then Unhit(c1, a2) else c1, a2))
  }

  /** A guess that goes through keeps the guess and every earlier assignment, adds only
      literals of the clauses, leaves exactly the clauses the new set does not satisfy,
      and keeps the set consistent. */
  lemma GuessStepFixedResult(cs: Formula, a: set<int>, guess: int)
    requires Consistent(a) && NonzeroLiterals(cs) && guess != 0
    ensures GuessStepFixed(cs, a, guess).Some? ==>
      var (rest, a2) := GuessStepFixed(cs, a, guess).value;
      && a + {guess} <= a2 <= a + {guess} + Literals(cs)
      && Literals(rest) <= Literals(cs)
      && (forall c :: c in rest ==> c in cs && !Hits(c, a2))
      && (forall c :: c in cs ==> Hits(c, a2) || c in rest)
      && Consistent(a2)
  {
    if -guess !in a {
      var a1 := a + {guess};
      var c1 := Unhit(cs, a1);
      UnhitMembers(cs, a1);
      LiteralsUnhit(cs, a1);
      DeduceFixedResult(c1, a1);
      if DeduceFixed(c1, a1).Some? {
        var a2 := DeduceFixed(c1, a1).value;
        UnhitMembers(c1, a2);
        LiteralsUnhit(c1, a2);
        if a2 != a1 {
          forall c | c in cs && !Hits(c, a2)
            ensures c in Unhit(c1, a2)
          {
            HitsGrow(c, a1, a2);
          }
        }
      }
    }
  }

  /** What a guess that goes through hands on to the recursive call carries back to
      the caller: the result stays within the guesses and the literals of the clauses,
      and hitting the remaining clauses means hitting all of them. */
  lemma GuessFixedCarries(cs: Formula, a: set<int>, guesses: set<int>, guess: int, rest: Formula,
                          deduced: set<int>, left: set<int>, done: bool, result: set<int>)
    requires Consistent(a) && NonzeroLiterals(cs) && guess != 0
    requires guess in guesses && GuessStepFixed(cs, a, guess) == Some((rest, deduced))
    requires deduced <= result <= deduced + left + Literals(rest) && left <= guesses
    requires done ==> forall c :: c in rest ==> Hits(c, result)
    ensures a <= result <= a + guesses + Literals(cs)
    ensures done ==> forall c :: c in cs ==> Hits(c, result)
  {
    GuessStepFixedResult(cs, a, guess);
    if done {
      forall c | c in cs
        ensures Hits(c, result)
      {
        HitsGrow(c, deduced, result);
      }
    }
  }

  /** deduceAssignments' foreach over the literal set, with the check: a literal joins
      when its negation is neither among the literals nor assigned. Reports whether one
      was new. */
  method AddFreshPureLiterals(literals: set<int>, assignments: LiteralSet) returns (found: bool)
    modifies assignments
    ensures assignments.elems ==
      old(assignments.elems) + (set l | l in literals && NegationAbsent(literals, l) && -l !in old(assignments.elems))
    ensures found <==> assignments.elems != old(assignments.elems)
  {
    found := false;
    ghost var a := assignments.elems;
    var rest := literals;
    while rest != {}
      invariant rest <= literals
      invariant assignments.elems ==
        a + (set l | l in literals - rest && NegationAbsent(literals, l) && -l !in a)
      invariant found <==> assignments.elems != a
      decreases rest
    {
      Nonempty(rest);
      var lit :| lit in rest;
      if -lit !in literals {
        assert -lit in assignments.elems <==> -lit in a;
        if -lit !in assignments.elems && lit !in assignments.elems {
          assignments.Add(lit);
          found := true;
        }
      }
      rest := rest - {lit};
    }
  }

  /** deduceAssignments with the check: the fresh pure literals, then the unit clauses.
      The flag is true exactly when the set grew. */
  method DeduceAssignmentsFixed(clauses: Formula, assignments: LiteralSet) returns (r: Result<bool, Error>)
    modifies assignments
    ensures r.Err? <==> DeduceFixed(clauses, old(assignments.elems)).None?
    ensures r.Err? ==> r.error == ArgumentException
    ensures r.Ok? ==> assignments.elems == DeduceFixed(clauses, old(assignments.elems)).value
    ensures r.Ok? ==> (r.value <==> assignments.elems != old(assignments.elems))
  {
    var literals := VariablesInClauses(clauses);
    var foundPure := AddFreshPureLiterals(literals, assignments);
    assert assignments.elems == old(assignments.elems) + FreshPure(clauses, old(assignments.elems));
    r := AddUnitLiterals(clauses, assignments);
    if r.Ok? {
      r := Ok(r.value || foundPure);
    }
  }

  /** The try block of recursiveGuess with the check, on fresh copies. */
  method TryGuessFixed(clauses: Formula, assignments: set<int>, guess: int)
      returns (r: Option<(Formula, set<int>)>)
    ensures r == GuessStepFixed(clauses, assignments, guess)
  {
    if -guess in assignments {
      return None;
    }
    var copyAssignments := new LiteralSet(assignments);
    var copyClauses := new ClauseList(clauses);
    copyAssignments.Add(guess);
    copyClauses := ApplyAssignments(copyClauses, copyAssignments.elems);
    var deduced := DeduceAssignmentsFixed(copyClauses.items, copyAssignments);
    if deduced.Err? {
      return None;
    }
    if deduced.value {
      copyClauses := ApplyAssignments(copyClauses, copyAssignments.elems);
    }
    return Some((copyClauses.items, copyAssignments.elems));
  }

  /** recursiveGuess with the checks. Besides what the solver as written promises, a
      successful result is consistent whenever the assignments it started from are. */
  method RecursiveGuessFixed(guessSet: LiteralSet, clauses: Formula, assignments: set<int>)
      returns (done: bool, result: set<int>)
    requires Consistent(assignments) && NonzeroLiterals(clauses)
    requires forall x :: x in guessSet.elems ==> x != 0
    modifies guessSet
    ensures guessSet.elems <= old(guessSet.elems)
    ensures clauses != [] && old(guessSet.elems) != {} ==> guessSet.elems < old(guessSet.elems)
    ensures clauses == [] ==> done && result == assignments
    ensures clauses != [] && old(guessSet.elems) == {} ==> !done && result == assignments
    ensures assignments <= result <= assignments + old(guessSet.elems) + Literals(clauses)
    ensures done ==> (forall c :: c in clauses ==> Hits(c, result)) && Consistent(result)
    decreases |guessSet.elems|
  {
    if clauses == [] {
      return true, assignments;
    }
    if guessSet.elems == {} {
      return false, assignments;
    }
    ghost var guesses := guessSet.elems;
    Nonempty(guessSet.elems);
    var guess :| guess in guessSet.elems;
    var _ := guessSet.Remove(guess);
    var oppositeRemoved := guessSet.Remove(-guess);
    var step := TryGuessFixed(clauses, assignments, guess);
    if step.Some? {
      var (rest, deduced) := step.value;
      GuessStepFixedResult(clauses, assignments, guess);
      ghost var left := guessSet.elems;
      if rest == [] {
        done, result := true, deduced;
      } else {
        done, result := RecursiveGuessFixed(guessSet, rest, deduced);
      }
      GuessFixedCarries(clauses, assignments, guesses, guess, rest, deduced, left, done, result);
      return;
    }
    if oppositeRemoved {
      guessSet.Add(-guess);
    }
    assert guessSet.elems == guesses - {guess};
    done, result := RecursiveGuessFixed(guessSet, clauses, assignments);
  }

  /** Solve with the checks: an answer is createSolution of a consistent set of
      literals of the input that holds the first deduction, and it satisfies the
      clauses. When the first deduction alone hits every clause, it is that set. */
  method SolveFixed(numVariables: int32, clauses: ClauseList)
      returns (output: seq<bool>, ghost solved: bool, ghost chosen: set<int>, ghost order: seq<int>)
    requires 0 <= numVariables
    requires forall l :: l in Literals(clauses.items) ==> InRange(numVariables, l)
    modifies clauses
    ensures DeduceFixed(old(clauses.items), {}).None? ==> !solved
    ensures !solved ==> output == []
    ensures var d := DeduceFixed(old(clauses.items), {});
      d.Some? && Unhit(old(clauses.items), d.value) == [] ==> solved && chosen == d.value
    ensures var d := DeduceFixed(old(clauses.items), {});
      solved ==> d.Some? && d.value <= chosen <= Literals(old(clauses.items))
    ensures solved ==>
      && Consistent(chosen)
      && (forall x :: x in order <==> x in chosen)
      && (forall x :: x in order ==> 1 <= Abs(x) <= numVariables as int)
      && output == Fill(seq(numVariables, _ => false), order)
    ensures solved ==> |output| == numVariables as int && Satisfies(old(clauses.items), output)
  {
    ghost var cs := clauses.items;
    assert NonzeroLiterals(cs);
    var assignments := new LiteralSet({});
    var uniqueLiterals := VariablesInClauses(clauses.items);
    var deduced := DeduceAssignmentsFixed(clauses.items, assignments);
    if deduced.Err? {
      return [], false, {}, [];
    }
    var a := assignments.elems;
    DeduceFixedResult(cs, {});
    if deduced.value {
      var list := ApplyAssignments(clauses, a);
      if |clauses.items| == 0 {
        UnhitOrHit(cs, a, a);
        output, order := Answer(cs, a, numVariables);
        return output, true, a, order;
      }
    } else {
      UnhitEmpty(cs);
    }
    output, solved, chosen, order := GuessPhaseFixed(cs, clauses.items, a, uniqueLiterals, numVariables);
  }

  /** The rest of SolveFixed once the first deduction went through. */
  method GuessPhaseFixed(ghost cs: Formula, clauses: Formula, assignments: set<int>,
                         uniqueLiterals: set<int>, numVariables: int32)
      returns (output: seq<bool>, ghost solved: bool, ghost chosen: set<int>, ghost order: seq<int>)
    requires 0 <= numVariables
    requires forall l :: l in Literals(cs) ==> InRange(numVariables, l)
    requires uniqueLiterals == Literals(cs) && assignments <= Literals(cs) && Consistent(assignments)
    requires clauses == Unhit(cs, assignments)
    ensures !solved ==> output == []
    ensures clauses == [] ==> solved && chosen == assignments
    ensures solved ==> assignments <= chosen <= Literals(cs) && Consistent(chosen)
    ensures solved ==>
      && (forall x :: x in order <==> x in chosen)
      && (forall x :: x in order ==> 1 <= Abs(x) <= numVariables as int)
      && output == Fill(seq(numVariables, _ => false), order)
    ensures solved ==> |output| == numVariables as int && Satisfies(cs, output)
  {
    var guessSet := new LiteralSet(uniqueLiterals - assignments);
    LiteralsUnhit(cs, assignments);
    var done, result := RecursiveGuessFixed(guessSet, clauses, assignments);
    if done {
      UnhitOrHit(cs, assignments, result);
      assert result <= Literals(cs);
      output, order := Answer(cs, result, numVariables);
      return output, true, result, order;
    }
    return [], false, {}, [];
  }

  /** On the clauses where the solver as written assigns both polarities, the checked
      deduction after the guess `1` adds nothing: the pure `-1` is refused because `1`
      is assigned, and the two clauses with `-1` are left for further guesses. */
  lemma GuessKeepsConsistent()
    ensures GuessStepFixed(TwoVariableExample(), {}, 1) == Some(([[-1, -2], [-1, 2]], {1}))
  {
    var cs := TwoVariableExample();
    assert {} + {1} == {1};
    var c1 := Unhit(cs, {1});
    assert c1 == [[-1, -2], [-1, 2]] by {
      assert Hits(cs[0], {1});
      assert !Hits(cs[1], {1}) && !Hits(cs[2], {1});
    }
    assert Literals(c1) == {-1, -2, 2} by {
      assert -1 in c1[0] && -2 in c1[0] && 2 in c1[1];
    }
    assert PureLiterals(c1) == {-1};
    assert FreshPure(c1, {1}) == {};
    assert c1[1..][1..] == [];
    assert {1} + FreshPure(c1, {1}) == {1};
    assert DeduceUnits(c1, {1}) == Some({1});
  }
}
