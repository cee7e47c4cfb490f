/** FastSat.cs: a solver over a set of assigned literals. It deduces pure and unit
    literals (failing with `ArgumentException` when a unit clause contradicts the set),
    drops every clause the set satisfies, and guesses literals from a shared guess set
    that shrinks with every guess. */
module FastSat {
  import opened Common
  import opened ClauseOps

  // ---- deduceAssignments ----

  /** The literals of the one-literal clauses. */
  function UnitLiterals(cs: Formula): set<int>
  {
    set c | c in cs && |c| == 1 :: c[0]
  }

  /** deduceAssignments' loop over the clauses in order: a unit clause `[x]` fails when
      `-x` is already in the set, and otherwise adds `x`. */
  function DeduceUnits(cs: Formula, a: set<int>): (r: Option<set<int>>)
    ensures r.Some? ==> a <= r.value
    ensures r.None? ==> exists c :: c in cs && |c| == 1
    ensures (forall c :: c in cs ==> |c| != 1) ==> r == Some(a)
  {
    if cs == [] then Some(a)
    else if |cs[0]| == 1 && -cs[0][0] in a then None
    else
      assert forall c :: c in cs[1..] ==> c in cs;
      DeduceUnits(cs[1..], if |cs[0]| == 1 then a + {cs[0][0]} else a)
  }

  /** deduceAssignments: every pure literal joins the set, then the unit clauses are
      taken in order; `None` stands for the `ArgumentException`. */
  function Deduce(cs: Formula, a: set<int>): (r: Option<set<int>>)
    ensures r.Some? ==> a + PureLiterals(cs) <= r.value
    ensures r.None? ==> exists c :: c in cs && |c| == 1
    ensures (forall c :: c in cs ==> |c| != 1) ==> r == Some(a + PureLiterals(cs))
  {
    DeduceUnits(cs, a + PureLiterals(cs))
  }

  lemma UnitLiteralsCons(c: Clause, rest: Formula)
    ensures UnitLiterals([c] + rest) == (if |c| == 1 then {c[0]} else {}) + UnitLiterals(rest)
  {
    assert forall d :: d in [c] + rest <==> d == c || d in rest;
  }

  /** Without a conflict, the deduced set is the given set plus every unit literal. */
  lemma {:induction false} DeduceUnitsResult(cs: Formula, a: set<int>)
    ensures DeduceUnits(cs, a).Some? ==> DeduceUnits(cs, a).value == a + UnitLiterals(cs)
  {
    if cs != [] {
      var a' := if |cs[0]| == 1 then a + {cs[0][0]} else a;
      DeduceUnitsResult(cs[1..], a');
      assert cs == [cs[0]] + cs[1..];
      UnitLiteralsCons(cs[0], cs[1..]);
    }
  }

  /** The unit literals of a prefix, by its first clause. */
  lemma UnitPrefix(cs: Formula, k: nat)
    requires 0 < k <= |cs|
    ensures UnitLiterals(cs[..k]) ==
      (if |cs[0]| == 1 then {cs[0][0]} else {}) + UnitLiterals(cs[1..][..k - 1])
  {
    assert cs[..k] == [cs[0]] + cs[1..][..k - 1];
    UnitLiteralsCons(cs[0], cs[1..][..k - 1]);
  }

  /** A failed deduction names the unit clause that failed. */
  lemma {:induction false} ConflictAt(cs: Formula, a: set<int>) returns (k: nat)
    requires DeduceUnits(cs, a).None?
    ensures k < |cs| && |cs[k]| == 1 && -cs[k][0] in a + UnitLiterals(cs[..k])
  {
    assert cs[..0] == [];
    if |cs[0]| == 1 && -cs[0][0] in a {
      return 0;
    }
    var a' := if |cs[0]| == 1 then a + {cs[0][0]} else a;
    var j := ConflictAt(cs[1..], a');
    UnitPrefix(cs, j + 1);
    return j + 1;
  }

  /** A unit clause whose negation is already in the set makes the deduction fail. */
  lemma {:induction false} ConflictFrom(cs: Formula, a: set<int>, k: nat)
    requires k < |cs| && |cs[k]| == 1 && -cs[k][0] in a + UnitLiterals(cs[..k])
    ensures DeduceUnits(cs, a).None?
  {
    if k == 0 {
      assert cs[..0] == [];
    } else if !(|cs[0]| == 1 && -cs[0][0] in a) {
      var a' := if |cs[0]| == 1 then a + {cs[0][0]} else a;
      UnitPrefix(cs, k);
      ConflictFrom(cs[1..], a', k - 1);
    }
  }

  /** The deduction fails exactly when some unit clause `[x]` meets `-x` in the given set
      or among the unit literals before it. */
  lemma DeduceUnitsConflict(cs: Formula, a: set<int>)
    ensures DeduceUnits(cs, a).None? <==>
      exists k :: 0 <= k < |cs| && |cs[k]| == 1 && -cs[k][0] in a + UnitLiterals(cs[..k])
  {
    if DeduceUnits(cs, a).None? {
      var k := ConflictAt(cs, a);
    }
    if k :| 0 <= k < |cs| && |cs[k]| == 1 && -cs[k][0] in a + UnitLiterals(cs[..k]) {
      ConflictFrom(cs, a, k);
    }
  }

  /** One clause of deduceAssignments' loop over the clauses. */
  lemma DeduceUnitsStep(cs: Formula, k: nat, a: set<int>)
    requires k < |cs|
    ensures DeduceUnits(cs[k..], a) ==
      if |cs[k]| == 1 && -cs[k][0] in a then None
      else DeduceUnits(cs[k + 1..], if |cs[k]| == 1 then a + {cs[k][0]} else a)
  {
    assert cs[k..][0] == cs[k] && cs[k..][1..] == cs[k + 1..];
  }

  /** Without a conflict, deduceAssignments adds exactly the pure literals and the unit
      literals, all of them literals of the clauses. */
  lemma DeduceResult(cs: Formula, a: set<int>)
    ensures Deduce(cs, a).Some? ==> Deduce(cs, a).value == a + PureLiterals(cs) + UnitLiterals(cs)
    ensures Deduce(cs, a).Some? ==> Deduce(cs, a).value <= a + Literals(cs)
  {
    DeduceUnitsResult(cs, a + PureLiterals(cs));
    forall x | x in UnitLiterals(cs)
      ensures x in Literals(cs)
    {
      var c :| c in cs && |c| == 1 && c[0] == x;
      assert x in c;
    }
  }

  /** A nonempty set has an element. */
  lemma Nonempty(s: set<int>)
    requires s != {}
    ensures exists x :: x in s
  {
    if forall x :: x !in s {
      assert false;
    }
  }

  /** deduceAssignments' foreach over the (unordered) literal set: every literal whose
      negation is not in the set joins the assignments. Reports whether one was new. */
  method AddPureLiterals(literals: set<int>, assignments: LiteralSet) returns (found: bool)
    modifies assignments
    ensures assignments.elems ==
      old(assignments.elems) + (set l | l in literals && NegationAbsent(literals, l))
    ensures found <==> assignments.elems != old(assignments.elems)
  {
    found := false;
    ghost var a := assignments.elems;
    var rest := literals;
    while rest != {}
      invariant rest <= literals
      invariant assignments.elems ==
        a + (set l | l in literals - rest && NegationAbsent(literals, l))
      invariant found <==> assignments.elems != a
      decreases rest
    {
      Nonempty(rest);
      var lit :| lit in rest;
      if -lit !in literals {
        if lit !in assignments.elems {
          assignments.Add(lit);
          found := true;
        }
      }
      rest := rest - {lit};
    }
  }

  /** deduceAssignments' foreach over the clauses: a unit clause `[x]` throws when `-x`
      is assigned and otherwise adds `x`. Reports whether a literal was new. */
  method AddUnitLiterals(clauses: Formula, assignments: LiteralSet) returns (r: Result<bool, Error>)
    modifies assignments
    ensures r.Err? <==> DeduceUnits(clauses, old(assignments.elems)).None?
    ensures r.Err? ==> r.error == ArgumentException
    ensures r.Ok? ==> assignments.elems == DeduceUnits(clauses, old(assignments.elems)).value
    ensures r.Ok? ==> (r.value <==> assignments.elems != old(assignments.elems))
    ensures r.Ok? ==> old(assignments.elems) <= assignments.elems
  {
    var found := false;
    ghost var a := assignments.elems;
    assert clauses[0..] == clauses;
    for k := 0 to |clauses|
      invariant a <= assignments.elems
      invariant DeduceUnits(clauses[k..], assignments.elems) == DeduceUnits(clauses, a)
      invariant found <==> assignments.elems != a
    {
      DeduceUnitsStep(clauses, k, assignments.elems);
      var clause := clauses[k];
      if |clause| == 1 {
        if -clause[0] in assignments.elems {
          return Err(ArgumentException);
        }
        if clause[0] !in assignments.elems {
          assignments.Add(clause[0]);
          found := true;
        } else {
          assert assignments.elems + {clause[0]} == assignments.elems;
        }
      }
    }
    assert clauses[|clauses|..] == [];
    return Ok(found);
  }

  /** deduceAssignments: the pure literals, then the unit clauses. The flag is true
      exactly when the set grew. On the exception the set is left part-way. */
  method DeduceAssignments(clauses: Formula, assignments: LiteralSet) returns (r: Result<bool, Error>)
    modifies assignments
    ensures r.Err? <==> Deduce(clauses, old(assignments.elems)).None?
    ensures r.Err? ==> r.error == ArgumentException
    ensures r.Ok? ==> assignments.elems == Deduce(clauses, old(assignments.elems)).value
    ensures r.Ok? ==> (r.value <==> assignments.elems != old(assignments.elems))
  {
    var literals := VariablesInClauses(clauses);
    var foundPure := AddPureLiterals(literals, assignments);
    assert assignments.elems == old(assignments.elems) + PureLiterals(clauses);
    r := AddUnitLiterals(clauses, assignments);
    if r.Ok? {
      r := Ok(r.value || foundPure);
    }
  }

  // ---- applyAssignments ----

  /** applyAssignments' inner foreach: does the clause hold an assigned literal? */
  method ContainsAssigned(clause: Clause, assignments: set<int>) returns (hit: bool)
    ensures hit <==> Hits(clause, assignments)
  {
    for j := 0 to |clause|
      invariant forall t :: 0 <= t < j ==> clause[t] !in assignments
    {
      if clause[j] in assignments {
        var l := clause[j];
        assert l in clause && l in assignments;
        return true;
      }
    }
    return false;
  }

  /** applyAssignments: walking from the back, every clause holding an assigned literal
      is removed; the others keep their order and their literals. Returns the list it
      was given. */
  method ApplyAssignments(clauses: ClauseList, assignments: set<int>) returns (result: ClauseList)
    modifies clauses
    ensures result == clauses
    ensures clauses.items == Unhit(old(clauses.items), assignments)
  {
    ghost var cs := clauses.items;
    var index := |clauses.items| - 1;
    while index >= 0
      invariant -1 <= index < |cs|
      invariant clauses.items == cs[..index + 1] + Unhit(cs[index + 1..], assignments)
    {
      var clause := clauses.items[index];
      assert clause == cs[index];
      var hit := ContainsAssigned(clause, assignments);
      UnhitBackStep(cs, index, assignments);
      if hit {
        clauses.RemoveAt(index);
      }
      index := index - 1;
    }
    assert cs[..0] == [] && cs[0..] == cs;
    result := clauses;
  }

  /** Filtering by a set that hits none of the clauses keeps them all. */
  lemma {:induction false} UnhitKeep(cs: Formula, s: set<int>)
    requires forall c :: c in cs ==> !Hits(c, s)
    ensures Unhit(cs, s) == cs
  {
    if cs != [] {
      assert cs[0] in cs;
      UnhitKeep(cs[1..], s);
    }
  }

  /** Filtering by the empty set keeps every clause. */
  lemma {:induction false} UnhitEmpty(cs: Formula)
    ensures Unhit(cs, {}) == cs
  {
    if cs != [] {
      UnhitEmpty(cs[1..]);
    }
  }

  /** A clause of `cs` survives filtering by `s` or is hit by `s`. */
  lemma UnhitOrHit(cs: Formula, s: set<int>, t: set<int>)
    requires s <= t
    requires forall c :: c in Unhit(cs, s) ==> Hits(c, t)
    ensures forall c :: c in cs ==> Hits(c, t)
  {
    UnhitMembers(cs, s);
    forall c | c in cs
      ensures Hits(c, t)
    {
      if !Hits(c, s) {
        assert c in Unhit(cs, s);
      } else {
        var x :| x in c && x in s;
      }
    }
  }

  // ---- recursiveGuess ----

  /** The try block of recursiveGuess, on copies of the list and of the assignments:
      add the guess, drop the clauses it satisfies, deduce, and drop again when the
      deduction found something new. `None` stands for the `ArgumentException`. */
  function GuessStep(cs: Formula, a: set<int>, guess: int): (r: Option<(Formula, set<int>)>)
    ensures r.Some? ==> a + {guess} <= r.value.1
  {
    var a1 := a + {guess};
    var c1 := Unhit(cs, a1);
    match Deduce(c1, a1)
    case None => None
    case Some(a2) => Some((if a2 != a1 then Unhit(c1, a2) else c1, a2))
  }

  /** A guess that survives deduction keeps the guess and every earlier assignment,
      adds only literals of the clauses, and leaves exactly the clauses the new set does
      not satisfy: every clause it drops is hit, and every clause it keeps is not. */
  lemma GuessStepResult(cs: Formula, a: set<int>, guess: int)
    ensures GuessStep(cs, a, guess).None? <==> Deduce(Unhit(cs, a + {guess}), a + {guess}).None?
    ensures GuessStep(cs, a, guess).Some? ==>
      var (rest, a2) := GuessStep(cs, a, guess).value;
      && a + {guess} <= a2 <= a + {guess} + Literals(cs)
      && Literals(rest) <= Literals(cs)
      && (forall c :: c in rest ==> c in cs && !Hits(c, a2))
      && (forall c :: c in cs ==> Hits(c, a2) || c in rest)
  {
    var a1 := a + {guess};
    var c1 := Unhit(cs, a1);
    UnhitMembers(cs, a1);
    if Deduce(c1, a1).Some? {
      var a2 := Deduce(c1, a1).value;
      UnhitMembers(c1, a2);
      DeduceResult(c1, a1);
      LiteralsUnhit(cs, a1);
      LiteralsUnhit(c1, a2);
      if a2 == a1 {
        assert GuessStep(cs, a, guess).value == (c1, a2);
      } else {
        assert GuessStep(cs, a, guess).value == (Unhit(c1, a2), a2);
        forall c | c in cs && !Hits(c, a2)
          ensures c in Unhit(c1, a2)
        {
          HitsGrow(c, a1, a2);
        }
      }
    }
  }

  /** A clause hit by a set is hit by every larger set. */
  lemma HitsGrow(c: Clause, s: set<int>, t: set<int>)
    requires s <= t
    ensures Hits(c, s) ==> Hits(c, t)
  {
    if Hits(c, s) {
      var x :| x in c && x in s;
      assert x in t;
    }
  }

  /** What a successful guess hands on to the recursive call carries back to the
      caller: the result stays within the guesses and the literals of the clauses,
      and hitting the remaining clauses means hitting all of them. */
  lemma GuessCarries(cs: Formula, a: set<int>, guesses: set<int>, guess: int, rest: Formula,
                     deduced: set<int>, left: set<int>, done: bool, result: set<int>)
    requires guess in guesses && GuessStep(cs, a, guess) == Some((rest, deduced))
    requires deduced <= result <= deduced + left + Literals(rest) && left <= guesses
    requires done ==> forall c :: c in rest ==> Hits(c, result)
    ensures a <= result <= a + guesses + Literals(cs)
    ensures done ==> forall c :: c in cs ==> Hits(c, result)
  {
    GuessStepResult(cs, a, guess);
    if done {
      forall c | c in cs
        ensures Hits(c, result)
      {
        HitsGrow(c, deduced, result);
      }
    }
  }

  /** The try block of recursiveGuess on fresh copies; the caller's list and set are
      left alone. */
  method TryGuess(clauses: Formula, assignments: set<int>, guess: int)
      returns (r: Option<(Formula, set<int>)>)
    ensures r == GuessStep(clauses, assignments, guess)
  {
    var copyAssignments := new LiteralSet(assignments);
    var copyClauses := new ClauseList(clauses);
    copyAssignments.Add(guess);
    copyClauses := ApplyAssignments(copyClauses, copyAssignments.elems);
    var deduced := DeduceAssignments(copyClauses.items, copyAssignments);
    if deduced.Err? {
      return None;
    }
    if deduced.value {
      copyClauses := ApplyAssignments(copyClauses, copyAssignments.elems);
    }
    return Some((copyClauses.items, copyAssignments.elems));
  }

  /** recursiveGuess. The list and the set of assignments it is given are only read (it
      works on copies), so they are values here; the guess set is shared and updated in
      place. The guess is any element of the guess set (`ElementAt` of a position drawn
      from `Random`, over the HashSet's own order). Success means every clause holds a
      literal of the result; the result only adds guessed and deduced literals; every
      call that guesses removes its guess from the guess set for good. */
  method RecursiveGuess(guessSet: LiteralSet, clauses: Formula, assignments: set<int>)
      returns (done: bool, result: set<int>)
    modifies guessSet
    ensures guessSet.elems <= old(guessSet.elems)
    ensures clauses != [] && old(guessSet.elems) != {} ==> guessSet.elems < old(guessSet.elems)
    ensures clauses == [] ==> done && result == assignments
    ensures clauses != [] && old(guessSet.elems) == {} ==> !done && result == assignments
    ensures assignments <= result <= assignments + old(guessSet.elems) + Literals(clauses)
    ensures done ==> forall c :: c in clauses ==> Hits(c, result)
    decreases |guessSet.elems|
  {
    if clauses == [] {
      return true, assignments;
    }
    if guessSet.elems == {} {
      return false, assignments;
    }
    ghost var guesses := guessSet.elems;
    Nonempty(guessSet.elems);
    var guess :| guess in guessSet.elems;
    var _ := guessSet.Remove(guess);
    var oppositeRemoved := guessSet.Remove(-guess);
    var step := TryGuess(clauses, assignments, guess);
    if step.Some? {
      var (rest, deduced) := step.value;
      ghost var left := guessSet.elems;
      if rest == [] {
        done, result := true, deduced;
      } else {
        done, result := RecursiveGuess(guessSet, rest, deduced);
      }
      GuessCarries(clauses, assignments, guesses, guess, rest, deduced, left, done, result);
      return;
    }
    if oppositeRemoved {
      guessSet.Add(-guess);
    }
    assert guessSet.elems == guesses - {guess};
    done, result := RecursiveGuess(guessSet, clauses, assignments);
  }

  // ---- createSolution ----

  /** `assignments.ToList()`: the set's elements in the HashSet's own order, which the
      model leaves open. */
  method ToList(s: set<int>) returns (order: seq<int>)
    ensures forall x :: x in order <==> x in s
  {
    order := [];
    var rest := s;
    while rest != {}
      invariant rest <= s
      invariant forall x :: x in order <==> x in s && x !in rest
      decreases |rest|
    {
      Nonempty(rest);
      var x :| x in rest;
      order := order + [x];
      rest := rest - {x};
    }
  }

  /** createSolution's loop: each literal in turn sets the entry of its variable to its
      sign, so a later literal overrides an earlier one of the same variable. */
  function Fill(output: seq<bool>, order: seq<int>): (r: seq<bool>)
    requires forall x :: x in order ==> 1 <= Abs(x) <= |output|
    ensures |r| == |output|
    decreases |order|
  {
    if order == [] then output
    else Fill(output[Abs(order[0]) - 1 := order[0] > 0], order[1..])
  }

  /** No literal is listed together with its negation. */
  predicate Consistent(s: set<int>)
  {
    forall x :: x in s ==> -x !in s
  }

  /** When the listed literals are consistent, each sets its own variable's entry and
      every unmentioned entry keeps its value, whatever the order. */
  lemma {:induction false} FillConsistent(output: seq<bool>, order: seq<int>)
    requires forall x :: x in order ==> 1 <= Abs(x) <= |output|
    requires forall x :: x in order ==> -x !in order
    ensures forall x :: x in order ==> Fill(output, order)[Abs(x) - 1] == (x > 0)
    ensures forall v :: 1 <= v <= |output| && v !in order && -v !in order ==>
      Fill(output, order)[v - 1] == output[v - 1]
    decreases |order|
  {
    if order != [] {
      var x0 := order[0];
      var next := output[Abs(x0) - 1 := x0 > 0];
      assert forall x :: x in order[1..] ==> x in order;
      FillConsistent(next, order[1..]);
      forall x | x in order
        ensures Fill(output, order)[Abs(x) - 1] == (x > 0)
      {
        if x !in order[1..] {
          assert x == x0;
          var v: int := Abs(x0);
          assert v == x0 || v == -x0;
          assert v !in order[1..] && -v !in order[1..];
        }
      }
      forall v | 1 <= v <= |output| && v !in order && -v !in order
        ensures Fill(output, order)[v - 1] == output[v - 1]
      {
        assert Abs(x0) != v;
      }
    }
  }

  /** createSolution: `numVariables` entries, all false, then each literal of the set,
      in the set's enumeration order `order`, sets its variable's entry to its sign. */
  method CreateSolution(assignments: set<int>, numVariables: int32)
      returns (output: seq<bool>, ghost order: seq<int>)
    requires 0 <= numVariables
    requires forall x :: x in assignments ==> 1 <= Abs(x) <= numVariables
    ensures forall x :: x in order <==> x in assignments
    ensures forall x :: x in order ==> 1 <= Abs(x) <= numVariables as int
    ensures output == Fill(seq(numVariables, _ => false), order)
  {
    var list := ToList(assignments);
    order := list;
    output := seq(numVariables, _ => false);
    ghost var initial := output;
    for k := 0 to |list|
      invariant |output| == numVariables as int
      invariant Fill(output, list[k..]) == Fill(initial, list)
    {
      assert list[k..][0] == list[k] && list[k..][1..] == list[k + 1..];
      output := output[Abs(list[k]) - 1 := list[k] > 0];
    }
  }

  /** A consistent set of in-range literals that hits every clause gives, through
      createSolution, an input satisfying the clauses, whatever the enumeration order. */
  lemma SolutionSatisfies(cs: Formula, a: set<int>, n: nat, order: seq<int>)
    requires forall x :: x in order <==> x in a
    requires forall x :: x in a ==> 1 <= Abs(x) <= n
    requires Consistent(a) && forall c :: c in cs ==> Hits(c, a)
    ensures Satisfies(cs, Fill(seq(n, _ => false), order))
  {
    var input := Fill(seq(n, _ => false), order);
    FillConsistent(seq(n, _ => false), order);
    forall c | c in cs
      ensures exists x :: x in c && Holds(x, input)
    {
      var x :| x in c && x in a;
      assert Holds(x, input);
    }
  }

  /** Solve: deduce from the empty set (a conflict gives up with the empty list), drop
      the satisfied clauses (in place, on the caller's list) and stop if none is left;
      otherwise guess over the literals not yet assigned. An answer is createSolution
      of the chosen set, listed in some order `order`: a set of literals of the input
      that holds the first deduction and hits every clause. When the first deduction
      alone hits every clause, that deduction is the chosen set. The answer satisfies
      the input whenever the chosen set holds no literal together with its negation. */
  method Solve(numVariables: int32, clauses: ClauseList)
      returns (output: seq<bool>, ghost solved: bool, ghost chosen: set<int>, ghost order: seq<int>)
    requires 0 <= numVariables
    requires forall l :: l in Literals(clauses.items) ==> InRange(numVariables, l)
    modifies clauses
    ensures Deduce(old(clauses.items), {}).None? ==> !solved
    ensures !solved ==> output == []
    ensures var d := Deduce(old(clauses.items), {});
      d.Some? && Unhit(old(clauses.items), d.value) == [] ==> solved && chosen == d.value
    ensures solved ==> Deduce(old(clauses.items), {}).Some? && Deduce(old(clauses.items), {}).value <= chosen
    ensures solved ==> chosen <= Literals(old(clauses.items))
    ensures solved ==>
      && (forall x :: x in order <==> x in chosen)
      && (forall x :: x in order ==> 1 <= Abs(x) <= numVariables as int)
      && output == Fill(seq(numVariables, _ => false), order)
    ensures solved ==> |output| == numVariables as int
    ensures solved ==> forall c :: c in old(clauses.items) ==> Hits(c, chosen)
    ensures solved && Consistent(chosen) ==> Satisfies(old(clauses.items), output)
  {
    ghost var cs := clauses.items;
    var assignments := new LiteralSet({});
    var uniqueLiterals := VariablesInClauses(clauses.items);
    var deduced := DeduceAssignments(clauses.items, assignments);
    if deduced.Err? {
      return [], false, {}, [];
    }
    var a := assignments.elems;
    assert a <= Literals(cs) by {
      DeduceResult(cs, {});
    }
    if deduced.value {
      var list := ApplyAssignments(clauses, a);
      if |clauses.items| == 0 {
        UnhitOrHit(cs, a, a);
        output, order := Answer(cs, a, numVariables);
        return output, true, a, order;
      }
    } else {
      UnhitEmpty(cs);
    }
    output, solved, chosen, order := GuessPhase(cs, clauses.items, a, uniqueLiterals, numVariables);
  }

  /** The rest of Solve once the first deduction went through: guess over the literals
      not yet assigned, from the clauses the assignments leave unsatisfied. With none
      left, the assignments themselves are the answer's set. */
  method GuessPhase(ghost cs: Formula, clauses: Formula, assignments: set<int>,
                    uniqueLiterals: set<int>, numVariables: int32)
      returns (output: seq<bool>, ghost solved: bool, ghost chosen: set<int>, ghost order: seq<int>)
    requires 0 <= numVariables
    requires forall l :: l in Literals(cs) ==> InRange(numVariables, l)
    requires uniqueLiterals == Literals(cs) && assignments <= Literals(cs)
    requires clauses == Unhit(cs, assignments)
    ensures !solved ==> output == []
    ensures clauses == [] ==> solved && chosen == assignments
    ensures solved ==> assignments <= chosen <= Literals(cs)
    ensures solved ==>
      && (forall x :: x in order <==> x in chosen)
      && (forall x :: x in order ==> 1 <= Abs(x) <= numVariables as int)
      && output == Fill(seq(numVariables, _ => false), order)
    ensures solved ==> |output| == numVariables as int
    ensures solved ==> forall c :: c in cs ==> Hits(c, chosen)
    ensures solved && Consistent(chosen) ==> Satisfies(cs, output)
  {
    var guessSet := new LiteralSet(uniqueLiterals - assignments);
    LiteralsUnhit(cs, assignments);
    var done, result := RecursiveGuess(guessSet, clauses, assignments);
    if done {
      UnhitOrHit(cs, assignments, result);
      assert result <= Literals(cs);
      output, order := Answer(cs, result, numVariables);
      return output, true, result, order;
    }
    return [], false, {}, [];
  }

  /** createSolution on a set of in-range literals that hits every clause: the set
      listed in some order fills the all-false input, and that input satisfies the
      clauses whenever the set holds no literal together with its negation. */
  method Answer(ghost cs: Formula, assignments: set<int>, numVariables: int32)
      returns (output: seq<bool>, ghost order: seq<int>)
    requires 0 <= numVariables
    requires assignments <= Literals(cs)
    requires forall l :: l in Literals(cs) ==> InRange(numVariables, l)
    requires forall c :: c in cs ==> Hits(c, assignments)
    ensures forall x :: x in order <==> x in assignments
    ensures forall x :: x in order ==> 1 <= Abs(x) <= numVariables as int
    ensures output == Fill(seq(numVariables, _ => false), order)
    ensures |output| == numVariables as int
    ensures Consistent(assignments) ==> Satisfies(cs, output)
  {
    forall x | x in assignments
      ensures 1 <= Abs(x) <= numVariables as int
    {
      assert InRange(numVariables, x);
    }
    output, order := CreateSolution(assignments, numVariables);
    if Consistent(assignments) {
      SolutionSatisfies(cs, assignments, numVariables as int, order);
    }
  }

  // ---- A guess that assigns both polarities ----

  /** The clauses `(v1 or v2) and (not v1 or not v2) and (not v1 or v2)`, satisfied only
      by `v1 = false, v2 = true`. */
  function TwoVariableExample(): Formula
  {
    [[1, 2], [-1, -2], [-1, 2]]
  }

  /** On the clauses above, the first deduction finds nothing, and a first guess of `1`
      drops the clause `(v1 or v2)`, after which `-1` is pure among the clauses left and
      deduction assigns it too: the guess succeeds with the set `{1, -1}`. Every
      input createSolution builds from that set, in either enumeration order, leaves
      `v2` false and fails a clause, although the clauses have a solution. */
  lemma GuessAssignsBothPolarities()
    ensures Deduce(TwoVariableExample(), {}) == Some({})
    ensures GuessStep(TwoVariableExample(), {}, 1) == Some(([], {1, -1}))
    ensures !Consistent({1, -1})
    ensures forall order :: (forall x :: x in order <==> x in {1, -1}) ==>
      !Satisfies(TwoVariableExample(), Fill([false, false], order))
    ensures Satisfies(TwoVariableExample(), [false, true])
  {
    ExampleFirstDeduction();
    ExampleGuessOne();
    assert -1 in {1, -1};
    forall order | forall x :: x in order <==> x in {1, -1}
      ensures !Satisfies(TwoVariableExample(), Fill([false, false], order))
    {
      FillKeeps([false, false], order, 2);
      ExampleNeedsV2(Fill([false, false], order));
    }
    ExampleSolution();
  }

  /** The first deduction on the example: no literal is pure and no clause is a unit. */
  lemma ExampleFirstDeduction()
    ensures Deduce(TwoVariableExample(), {}) == Some({})
  {
    var cs := TwoVariableExample();
    assert Literals(cs) == {1, 2, -1, -2} by {
      forall l | l in Literals(cs)
        ensures l in {1, 2, -1, -2}
      {
        var c :| c in cs && l in c;
      }
      assert 1 in cs[0] && 2 in cs[0] && -1 in cs[1] && -2 in cs[1];
    }
    assert PureLiterals(cs) == {};
    assert UnitLiterals(cs) == {};
    DeduceUnitsResult(cs, {});
    DeduceUnitsConflict(cs, {});
  }

  /** The guess `1` on the example: `(v1 or v2)` goes, `-1` is pure in the other two
      clauses and joins, and then both of them go. */
  lemma ExampleGuessOne()
    ensures GuessStep(TwoVariableExample(), {}, 1) == Some(([], {1, -1}))
  {
    var cs := TwoVariableExample();
    assert {} + {1} == {1};
    var c1 := Unhit(cs, {1});
    assert c1 == [[-1, -2], [-1, 2]] by {
      assert Hits(cs[0], {1});
      assert !Hits(cs[1], {1}) && !Hits(cs[2], {1});
    }
    assert {1, -1} != {1} by {
      assert -1 in {1, -1};
    }
    assert Literals(c1) == {-1, -2, 2} by {
      forall l | l in Literals(c1)
        ensures l in {-1, -2, 2}
      {
        var c :| c in c1 && l in c;
      }
      assert -1 in c1[0] && -2 in c1[0] && 2 in c1[1];
    }
    assert PureLiterals(c1) == {-1};
    assert {1} + PureLiterals(c1) == {1, -1};
    assert c1[1..][1..] == [];
    assert DeduceUnits(c1, {1, -1}) == Some({1, -1});
    assert Unhit(c1, {1, -1}) == [] by {
      assert Hits(c1[0], {1, -1}) && Hits(c1[1], {1, -1});
    }
  }

  /** With `v2` false, `(v1 or v2)` needs `v1` true and `(not v1 or v2)` needs it false. */
  lemma ExampleNeedsV2(input: seq<bool>)
    requires |input| == 2 && !input[1]
    ensures !Satisfies(TwoVariableExample(), input)
  {
    var cs := TwoVariableExample();
    if input[0] {
      assert cs[2] in cs && !(exists l :: l in cs[2] && Holds(l, input));
    } else {
      assert cs[0] in cs && !(exists l :: l in cs[0] && Holds(l, input));
    }
  }

  /** `v1 = false, v2 = true` satisfies the example. */
  lemma ExampleSolution()
    ensures Satisfies(TwoVariableExample(), [false, true])
  {
    assert Holds(2, [false, true]) && Holds(-1, [false, true]);
    assert forall c :: c in TwoVariableExample() ==> 2 in c || -1 in c;
  }

  /** createSolution leaves the entry of a variable that no listed literal names. */
  lemma {:induction false} FillKeeps(output: seq<bool>, order: seq<int>, v: int)
    requires forall x :: x in order ==> 1 <= Abs(x) <= |output|
    requires 1 <= v <= |output| && v !in order && -v !in order
    ensures Fill(output, order)[v - 1] == output[v - 1]
    decreases |order|
  {
    if order != [] {
      assert forall x :: x in order[1..] ==> x in order;
      assert Abs(order[0]) != v;
      FillKeeps(output[Abs(order[0]) - 1 := order[0] > 0], order[1..], v);
    }
  }
}
