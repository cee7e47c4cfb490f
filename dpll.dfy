/** DPLL.cs: the solver's methods, updating the clause list and the assignment
    dictionary in place as the C# code does. Each method is proved to leave exactly the
    state the corresponding function of `DpllSpec` computes, with the unit clause taken
    from the back of the list. */
module Dpll {
  import opened Common
  import opened ClauseOps
  import opened DpllSpec

  /** propagateAssignment: walking the list from the back, a clause holding `variable`
      is removed and a clause holding `-variable` loses it. */
  method PropagateAssignment(variable: int, clauses: ClauseList)
    modifies clauses
    ensures clauses.items == Propagate(old(clauses.items), variable)
  {
    ghost var cs := clauses.items;
    var index := |clauses.items| - 1;
    while index >= 0
      invariant -1 <= index < |cs|
      invariant clauses.items == cs[..index + 1] + Propagate(cs[index + 1..], variable)
    {
      PropagateBackStep(cs, index, variable);
      var clause := clauses.items[index];
      if variable in clause {
        clauses.RemoveAt(index);
      } else if -variable in clause {
        clauses.RemoveLiteral(index, -variable);
      }
      index := index - 1;
    }
    assert cs[0..] == cs;
  }

  /** One round of removeUnitClauses' inner loop: from the back, the first unit clause
      met is recorded, removed and propagated. */
  method RemoveLastUnit(clauses: ClauseList, assignments: AssignmentMap)
    requires LastUnit(clauses.items) >= 0
    modifies clauses, assignments
    ensures var k := LastUnit(old(clauses.items));
      var l := old(clauses.items)[k][0];
      && clauses.items == Propagate(old(clauses.items[..k] + clauses.items[k + 1..]), l)
      && assignments.entries == Record(old(assignments.entries), l)
  {
    ghost var cs := clauses.items;
    var index := |clauses.items| - 1;
    while index >= 0
      invariant LastUnit(cs) <= index < |cs|
      invariant clauses.items == cs && assignments.entries == old(assignments.entries)
    {
      var clause := clauses.items[index];
      if |clause| == 1 {
        if Abs(clause[0]) !in assignments.entries {
          assignments.Add(Abs(clause[0]), clause[0] > 0);
        }
        clauses.RemoveAt(index);
        PropagateAssignment(clause[0], clauses);
        return;
      }
      index := index - 1;
    }
  }

  /** removeUnitClauses: while a unit clause remains, take the last one. Returns the
      dictionary it was given. */
  method RemoveUnitClauses(clauses: ClauseList, assignments: AssignmentMap) returns (result: AssignmentMap)
    modifies clauses, assignments
    ensures result == assignments
    ensures (clauses.items, assignments.entries) ==
      RemoveUnits(Backward, old(clauses.items), old(assignments.entries))
  {
    var hasUnit := ContainsUnitClause(clauses.items);
    while hasUnit
      invariant hasUnit <==> LastUnit(clauses.items) >= 0
      invariant RemoveUnits(Backward, clauses.items, assignments.entries) ==
        RemoveUnits(Backward, old(clauses.items), old(assignments.entries))
      decreases |clauses.items|
    {
      RemoveLastUnit(clauses, assignments);
      hasUnit := ContainsUnitClause(clauses.items);
    }
    result := assignments;
  }

  /** Every literal of `c` that belongs to `pure` has been recorded in `seen`. */
  ghost predicate Covered(c: Clause, pure: set<int>, seen: set<int>)
  {
    forall x :: x in c && x in pure ==> x in seen
  }

  /** The inner loop of propagatePureLiterals over one clause: records the variable of
      each pure literal it holds (unless it has a value) and reports whether it held one.
      `seen` is the set of pure literals recorded so far. */
  method RecordPureLiterals(clause: Clause, pure: set<int>, assignments: AssignmentMap,
                            ghost m: map<int, bool>, ghost seen: set<int>)
      returns (removeClause: bool, ghost seenAfter: set<int>)
    requires seen <= pure && forall y :: y in pure ==> -y !in pure
    requires assignments.entries == AddLiterals(m, seen)
    modifies assignments
    ensures removeClause <==> Hits(clause, pure)
    ensures seen <= seenAfter <= pure && Covered(clause, pure, seenAfter)
    ensures assignments.entries == AddLiterals(m, seenAfter)
  {
    removeClause := false;
    seenAfter := seen;
    for j := 0 to |clause|
      invariant seen <= seenAfter <= pure
      invariant forall t :: 0 <= t < j && clause[t] in pure ==> clause[t] in seenAfter
      invariant removeClause <==> exists t :: 0 <= t < j && clause[t] in pure
      invariant assignments.entries == AddLiterals(m, seenAfter)
    {
      var i := clause[j];
      if i in pure {
        AddLiteralStep(m, seenAfter, pure, i);
        if Abs(i) !in assignments.entries {
          assignments.Add(Abs(i), i > 0);
        }
        seenAfter := seenAfter + {i};
        removeClause := true;
      }
    }
    assert removeClause <==> Hits(clause, pure) by {
      if Hits(clause, pure) {
        var l :| l in clause && l in pure;
        var t :| 0 <= t < |clause| && clause[t] == l;
      }
    }
    forall x | x in clause && x in pure
      ensures x in seenAfter
    {
      var t :| 0 <= t < |clause| && clause[t] == x;
    }
  }

  /** A set of pure literals covering every clause holds all of them. */
  lemma CoveredAll(cs: Formula, pure: set<int>, seen: set<int>)
    requires pure == PureLiterals(cs) && seen <= pure
    requires forall k :: 0 <= k < |cs| ==> Covered(cs[k], pure, seen)
    ensures seen == pure
  {
    forall x | x in pure
      ensures x in seen
    {
      var c :| c in cs && x in c;
      var k :| 0 <= k < |cs| && cs[k] == c;
      assert Covered(cs[k], pure, seen);
    }
  }

  lemma CoveredMono(cs: Formula, index: int, pure: set<int>, seen: set<int>, seen': set<int>)
    requires 0 <= index < |cs|
    requires seen <= seen' && Covered(cs[index], pure, seen')
    requires forall k :: index < k < |cs| ==> Covered(cs[k], pure, seen)
    ensures forall k :: index - 1 < k < |cs| ==> Covered(cs[k], pure, seen')
  {
    forall k | index - 1 < k < |cs|
      ensures Covered(cs[k], pure, seen')
    {
      if k > index {
        assert Covered(cs[k], pure, seen);
      }
    }
  }

  /** The state propagatePureLiterals' loop leaves once every clause is processed. */
  lemma PureLoopDone(cs: Formula, m: map<int, bool>, pure: set<int>, seen: set<int>)
    requires pure == PureLiterals(cs) && seen <= pure
    requires forall k :: -1 < k < |cs| ==> Covered(cs[k], pure, seen)
    ensures PropagatePure(cs, m) == (cs[..0] + Unhit(cs[0..], pure), AddLiterals(m, seen))
  {
    CoveredAll(cs, pure, seen);
    assert cs[..0] == [] && cs[0..] == cs;
    assert cs[..0] + Unhit(cs[0..], pure) == Unhit(cs, pure);
    PropagatePureResult(cs, m);
  }

  /** propagatePureLiterals: walking the list from the back, every clause holding a pure
      literal is removed, and the variable of each pure literal met is recorded with the
      literal's sign unless it already has a value. Returns the dictionary it was given. */
  method PropagatePureLiterals(clauses: ClauseList, assignments: AssignmentMap) returns (result: AssignmentMap)
    modifies clauses, assignments
    ensures result == assignments
    ensures (clauses.items, assignments.entries) ==
      PropagatePure(old(clauses.items), old(assignments.entries))
  {
    var pureLiterals := GetPureLiterals(clauses.items);
    ghost var cs := clauses.items;
    ghost var m := assignments.entries;
    ghost var seen: set<int> := {};
    PureConsistent(cs);
    var removeClause := false;
    var index := |clauses.items| - 1;
    while index >= 0
      invariant -1 <= index < |cs|
      invariant clauses.items == cs[..index + 1] + Unhit(cs[index + 1..], pureLiterals)
      invariant seen <= pureLiterals
      invariant forall k :: index < k < |cs| ==> Covered(cs[k], pureLiterals, seen)
      invariant assignments.entries == AddLiterals(m, seen)
    {
      var clause := clauses.items[index];
      assert clause == cs[index];
      ghost var seenBefore := seen;
      removeClause, seen := RecordPureLiterals(clause, pureLiterals, assignments, m, seen);
      CoveredMono(cs, index, pureLiterals, seenBefore, seen);
      UnhitBackStep(cs, index, pureLiterals);
      if removeClause {
        clauses.RemoveAt(index);
      }
      index := index - 1;
    }
    PureLoopDone(cs, m, pureLiterals, seen);
    result := assignments;
  }

  /** The copies DPLL branches on: both lists and dictionaries are copied, then the
      lowest variable without a value is set true in the first copy and false in the
      second, and propagated through each copied list. */
  method BranchCopies(clauses: ClauseList, assignments: AssignmentMap, numVariables: int32)
      returns (firstNewList: ClauseList, secondNewList: ClauseList,
               firstNewDict: AssignmentMap, secondNewDict: AssignmentMap)
    requires Lowest(numVariables, assignments.entries) <= numVariables
    ensures fresh(firstNewList) && fresh(secondNewList) && fresh(firstNewDict) && fresh(secondNewDict)
    ensures firstNewList != secondNewList && firstNewDict != secondNewDict
    ensures var v := Lowest(numVariables, assignments.entries);
      && firstNewList.items == Propagate(clauses.items, v)
      && secondNewList.items == Propagate(clauses.items, -v)
      && firstNewDict.entries == assignments.entries[v := true]
      && secondNewDict.entries == assignments.entries[v := false]
  {
    ghost var v := Lowest(numVariables, assignments.entries);
    firstNewList := DeepCopyClauses(clauses);
    secondNewList := DeepCopyClauses(clauses);
    firstNewDict := new AssignmentMap(assignments.entries);
    secondNewDict := new AssignmentMap(assignments.entries);
    var i := 1;
    while i <= numVariables
      invariant 1 <= i <= v
      invariant firstNewList.items == clauses.items && secondNewList.items == clauses.items
      invariant firstNewDict.entries == assignments.entries
      invariant secondNewDict.entries == assignments.entries
    {
      if i !in assignments.entries {
        assert i == v;
        ghost var c := clauses.items;
        PropagateAssignment(i, firstNewList);
        ghost var firstItems := firstNewList.items;
        assert firstItems == Propagate(c, v);
        assert secondNewList.items == c;
        PropagateAssignment(-i, secondNewList);
        assert secondNewList.items == Propagate(c, -v);
        assert firstNewList.items == firstItems && clauses.items == c;
        firstNewDict.Add(i, true);
        secondNewDict.Add(i, false);
        return;
      }
      i := i + 1;
    }
  }

  /** DPLL: simplify the list and dictionary in place; an emptied list returns the
      dictionary, an empty clause returns a new empty dictionary; otherwise the lowest
      unassigned variable is set true on one copy and false on another, and each copy
      is solved in turn, twice when its first result is non-empty (the second call works
      on the copy the first call already changed). When both copies fail, the
      simplified dictionary itself is returned. The result, the list and the dictionary
      are those `DpllSpec.Run` computes. */
  method DpllRec(clauses: ClauseList, assignments: AssignmentMap, numVariables: int32)
      returns (result: AssignmentMap)
    requires Inv(numVariables, clauses.items, assignments.entries)
    modifies clauses, assignments
    ensures (result.entries, clauses.items, assignments.entries) ==
      Run(Backward, numVariables, old(clauses.items), old(assignments.entries))
    decreases Unassigned(numVariables, assignments.entries), 3
  {
    ghost var cs := clauses.items;
    ghost var m := assignments.entries;
    var current := RemoveUnitClauses(clauses, assignments);
    current := PropagatePureLiterals(clauses, current);
    if |clauses.items| == 0 {
      return current;
    }
    var hasEmpty := ContainsEmptyClause(clauses.items);
    if hasEmpty {
      result := new AssignmentMap(map[]);
      return;
    }

    RunBranches(Backward, numVariables, cs, m);
    result := DpllBranch(clauses, current, numVariables, m);
  }

  /** One of the two tries of the branch: a copy is solved, and
      when the result is non-empty it is solved again on the list and dictionary the
      first call changed. `bound` is the set of unassigned variables of the caller. */
  method TryCopy(list: ClauseList, dict: AssignmentMap, numVariables: int32, ghost bound: set<int>)
      returns (found: bool, result: AssignmentMap)
    requires Inv(numVariables, list.items, dict.entries)
    requires Unassigned(numVariables, dict.entries) < bound
    modifies list, dict
    ensures var first := Run(Backward, numVariables, old(list.items), old(dict.entries));
      && found == (first.0 != map[])
      && (found ==> result.entries == Run(Backward, numVariables, first.1, first.2).0)
    decreases bound, 0
  {
    ghost var entries := dict.entries;
    var first := DpllRec(list, dict, numVariables);
    found := first.entries != map[];
    result := first;
    if found {
      UnassignedMono(numVariables, dict.entries, entries);
      result := DpllRec(list, dict, numVariables);
    }
  }

  /** The branching half of DPLL, on the simplified list and dictionary (which it leaves
      untouched): copies for the lowest unassigned variable set true and set false,
      tried in that order; when both fail, the dictionary itself is returned. */
  method DpllBranch(clauses: ClauseList, assignments: AssignmentMap, numVariables: int32,
                    ghost m: map<int, bool>)
      returns (result: AssignmentMap)
    requires Inv(numVariables, clauses.items, assignments.entries)
    requires Extends(assignments.entries, m) && clauses.items != [] && [] !in clauses.items
    ensures result.entries == Branch(Backward, numVariables, m, clauses.items, assignments.entries)
    decreases Unassigned(numVariables, m), 2
  {
    BranchReady(numVariables, m, clauses.items, assignments.entries);
    var firstNewList, secondNewList, firstNewDict, secondNewDict :=
      BranchCopies(clauses, assignments, numVariables);
    var found, r := TryBoth(firstNewList, firstNewDict, secondNewList, secondNewDict,
                            numVariables, m, clauses.items, assignments.entries);
    if found {
      return r;
    }
    return assignments;
  }

  /** The two recursive attempts of the branching step, on the copies for `v` true and
      `v` false, where `v` is the lowest unassigned variable of `m2`. */
  method TryBoth(firstNewList: ClauseList, firstNewDict: AssignmentMap,
                 secondNewList: ClauseList, secondNewDict: AssignmentMap, numVariables: int32,
                 ghost m: map<int, bool>, ghost c2: Formula, ghost m2: map<int, bool>)
      returns (found: bool, result: AssignmentMap)
    requires Inv(numVariables, c2, m2) && Extends(m2, m) && c2 != [] && [] !in c2
    requires firstNewList != secondNewList && firstNewDict != secondNewDict
    requires firstNewList.items == Propagate(c2, Lowest(numVariables, m2))
    requires firstNewDict.entries == m2[Lowest(numVariables, m2) := true]
    requires secondNewList.items == Propagate(c2, -Lowest(numVariables, m2))
    requires secondNewDict.entries == m2[Lowest(numVariables, m2) := false]
    modifies firstNewList, firstNewDict, secondNewList, secondNewDict
    ensures found ==> result.entries == Branch(Backward, numVariables, m, c2, m2)
    ensures !found ==> Branch(Backward, numVariables, m, c2, m2) == m2
    decreases Unassigned(numVariables, m), 1
  {
    BranchReady(numVariables, m, c2, m2);
    ghost var l1, a1 := firstNewList.items, firstNewDict.entries;
    ghost var l2, a2 := secondNewList.items, secondNewDict.entries;
    ghost var firstRun := Run(Backward, numVariables, l1, a1);
    ghost var secondRun := Run(Backward, numVariables, l2, a2);

    found, result := TryCopy(firstNewList, firstNewDict, numVariables, Unassigned(numVariables, m));
    if found {
      BranchTakesTrue(Backward, numVariables, m, c2, m2, l1, a1, firstRun);
      return;
    }
    found, result := TryCopy(secondNewList, secondNewDict, numVariables, Unassigned(numVariables, m));
    if found {
      BranchTakesFalse(Backward, numVariables, m, c2, m2, l1, a1, firstRun, l2, a2, secondRun);
      return;
    }
    BranchFails(Backward, numVariables, m, c2, m2, l1, a1, firstRun, l2, a2, secondRun);
  }

  /** The loop at the end of Solve: one value per variable, from the dictionary, true
      for a variable it does not mention. */
  method InputFrom(numVariables: int32, assignments: AssignmentMap) returns (input: seq<bool>)
    requires 0 <= numVariables
    ensures input == InputOf(numVariables, assignments.entries)
  {
    input := [];
    for i: int := 1 to numVariables as int + 1
      invariant |input| == i - 1
      invariant forall k :: 0 <= k < i - 1 ==>
        input[k] == if k + 1 in assignments.entries then assignments.entries[k + 1] else true
    {
      if i in assignments.entries {
        input := input + [assignments.entries[i]];
      } else {
        input := input + [true];
      }
    }
  }

  /** Solve: runs DPLL from an empty dictionary and reads off one value per variable. */
  method Solve(numVariables: int32, clauses: ClauseList) returns (input: seq<bool>)
    requires 0 <= numVariables && Inv(numVariables, clauses.items, map[])
    modifies clauses
    ensures input == InputOf(numVariables, Run(Backward, numVariables, old(clauses.items), map[]).0)
  {
    var empty := new AssignmentMap(map[]);
    var assignments := DpllRec(clauses, empty, numVariables);
    input := InputFrom(numVariables, assignments);
  }
}
