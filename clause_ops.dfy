/** The clause-list helpers that DPLL.cs, DPLL_aintgotno.cs, FastSat.cs and
    PureLiteralPropagation.cs each carry a private copy of (getVariablesInClauses,
    findUniqueLiterals, getPureLiterals, containsUnitClause, containsEmptyClause,
    deepCopyClauses). The copies are identical apart from brace style, so each is
    modelled once here. */
module ClauseOps {
  import opened Common

  /** getVariablesInClauses / findUniqueLiterals: the set of literals of all clauses. */
  method VariablesInClauses(clauses: Formula) returns (unique: set<int>)
    ensures unique == Literals(clauses)
  {
    unique := {};
    for k := 0 to |clauses|
      invariant forall l :: l in unique <==> exists i :: 0 <= i < k && l in clauses[i]
    {
      var clause := clauses[k];
      for j := 0 to |clause|
        invariant forall l :: l in unique <==>
          (exists i :: 0 <= i < k && l in clauses[i]) || l in clause[..j]
      {
        assert clause[..j + 1] == clause[..j] + [clause[j]];
        unique := unique + {clause[j]};
      }
      assert clause[..|clause|] == clause;
    }
    forall l | l in Literals(clauses)
      ensures l in unique
    {
      var c :| c in clauses && l in c;
      var i :| 0 <= i < |clauses| && clauses[i] == c;
    }
    forall l | l in unique
      ensures l in Literals(clauses)
    {
      var i :| 0 <= i < |clauses| && l in clauses[i];
      assert clauses[i] in clauses;
    }
  }

  /** getPureLiterals: the literals `l` of the clauses such that `-l` occurs in none. */
  method GetPureLiterals(clauses: Formula) returns (pure: set<int>)
    ensures pure == PureLiterals(clauses)
    ensures forall l :: l in pure <==>
      (exists c :: c in clauses && l in c) && forall c :: c in clauses ==> -l !in c
  {
    var variablesInClauses := VariablesInClauses(clauses);
    pure := {};
    var rest := variablesInClauses;
    while rest != {}
      invariant rest <= variablesInClauses
      invariant pure == set l | l in variablesInClauses - rest && NegationAbsent(variablesInClauses, l)
      decreases rest
    {
      var v :| v in rest;
      if -v !in variablesInClauses {
        pure := pure + {v};
      }
      rest := rest - {v};
    }
  }

  /** containsUnitClause: some clause has exactly one literal. */
  method ContainsUnitClause(clauses: Formula) returns (found: bool)
    ensures found <==> exists k :: 0 <= k < |clauses| && |clauses[k]| == 1
  {
    for k := 0 to |clauses|
      invariant forall i :: 0 <= i < k ==> |clauses[i]| != 1
    {
      if |clauses[k]| == 1 {
        return true;
      }
    }
    return false;
  }

  /** containsEmptyClause: some clause has no literal left. */
  method ContainsEmptyClause(clauses: Formula) returns (found: bool)
    ensures found <==> [] in clauses
  {
    for k := 0 to |clauses|
      invariant forall i :: 0 <= i < k ==> clauses[i] != []
    {
      if clauses[k] == [] {
        return true;
      }
    }
    return false;
  }

  /** deepCopyClauses: a new list of new clause lists with the same literals, so that
      changing the copy leaves the original untouched. */
  method DeepCopyClauses(clauses: ClauseList) returns (copy: ClauseList)
    ensures fresh(copy)
    ensures copy.items == clauses.items
  {
    var newClauses: Formula := [];
    for k := 0 to |clauses.items|
      invariant newClauses == clauses.items[..k]
    {
      var clause := clauses.items[k];
      var newClause: Clause := [];
      for j := 0 to |clause|
        invariant newClause == clause[..j]
      {
        newClause := newClause + [clause[j]];
      }
      assert clause[..|clause|] == clause;
      newClauses := newClauses + [newClause];
    }
    copy := new ClauseList(newClauses);
  }
}
