/** DPLL_aintgotno.cs: the same solver as DPLL.cs, written with foreach loops over a
    snapshot of the clause list (`clauses.ToList()`) and `List.Remove` of the clause met.
    The unit clause taken in each round is the first one. Each method is proved to leave
    exactly the state the corresponding function of `DpllSpec` computes with the
    `Forward` scan.

    `clauses.Remove(clause)` removes the very list object the loop is looking at, which
    sits in the live list right after the survivors of the processed prefix; the methods
    keep that position in `position`. */
module DpllForward {
  import opened Common
  import opened ClauseOps
  import opened DpllSpec
  import Dpll

  /** propagateAssignment: over a snapshot of the list, a clause holding `variable` is
      removed from the live list and a clause holding `-variable` loses it. */
  method PropagateAssignment(variable: int, clauses: ClauseList)
    modifies clauses
    ensures clauses.items == Propagate(old(clauses.items), variable)
  {
    var snapshot := clauses.items;
    var position := 0;
    for k := 0 to |snapshot|
      invariant position == |Propagate(snapshot[..k], variable)|
      invariant clauses.items == Propagate(snapshot[..k], variable) + snapshot[k..]
    {
      PropagateForwardStep(snapshot, k, variable, clauses.items, position);
      var clause := snapshot[k];
      if variable in clause {
        clauses.RemoveAt(position);
      } else if -variable in clause {
        clauses.RemoveLiteral(position, -variable);
        position := position + 1;
      } else {
        position := position + 1;
      }
    }
    assert snapshot[..|snapshot|] == snapshot;
  }

  /** One round of removeUnitClauses' foreach: the first unit clause met is recorded,
      removed and propagated, and the loop breaks. */
  method RemoveFirstUnit(clauses: ClauseList, assignments: AssignmentMap)
    requires FirstUnit(clauses.items) >= 0
    modifies clauses, assignments
    ensures var k := FirstUnit(old(clauses.items));
      var l := old(clauses.items)[k][0];
      && clauses.items == Propagate(old(clauses.items[..k] + clauses.items[k + 1..]), l)
      && assignments.entries == Record(old(assignments.entries), l)
  {
    var snapshot := clauses.items;
    for k := 0 to |snapshot|
      invariant k <= FirstUnit(snapshot)
      invariant clauses.items == snapshot && assignments.entries == old(assignments.entries)
    {
      var clause := snapshot[k];
      if |clause| == 1 {
        if Abs(clause[0]) !in assignments.entries {
          assignments.Add(Abs(clause[0]), clause[0] > 0);
        }
        clauses.RemoveAt(k);
        PropagateAssignment(clause[0], clauses);
        return;
      }
    }
  }

  /** removeUnitClauses: while a unit clause remains, take the first one. Returns the
      dictionary it was given. */
  method RemoveUnitClauses(clauses: ClauseList, assignments: AssignmentMap) returns (result: AssignmentMap)
    modifies clauses, assignments
    ensures result == assignments
    ensures (clauses.items, assignments.entries) ==
      RemoveUnits(Forward, old(clauses.items), old(assignments.entries))
  {
    var hasUnit := ContainsUnitClause(clauses.items);
    while hasUnit
      invariant hasUnit <==> FirstUnit(clauses.items) >= 0
      invariant RemoveUnits(Forward, clauses.items, assignments.entries) ==
        RemoveUnits(Forward, old(clauses.items), old(assignments.entries))
      decreases |clauses.items|
    {
      RemoveFirstUnit(clauses, assignments);
      hasUnit := ContainsUnitClause(clauses.items);
    }
    result := assignments;
  }

  /** The coverage of the processed prefix grows by the clause at `k`. */
  lemma CoveredPrefix(cs: Formula, k: nat, pure: set<int>, seen: set<int>, seen': set<int>)
    requires k < |cs|
    requires seen <= seen' && Dpll.Covered(cs[k], pure, seen')
    requires forall t :: 0 <= t < k ==> Dpll.Covered(cs[t], pure, seen)
    ensures forall t :: 0 <= t < k + 1 ==> Dpll.Covered(cs[t], pure, seen')
  {
    forall t | 0 <= t < k + 1
      ensures Dpll.Covered(cs[t], pure, seen')
    {
      if t < k {
        assert Dpll.Covered(cs[t], pure, seen);
      }
    }
  }

  /** The state propagatePureLiterals' loop leaves once the whole snapshot is processed. */
  lemma PureLoopDone(cs: Formula, m: map<int, bool>, pure: set<int>, seen: set<int>)
    requires pure == PureLiterals(cs) && seen <= pure
    requires forall t :: 0 <= t < |cs| ==> Dpll.Covered(cs[t], pure, seen)
    ensures PropagatePure(cs, m) == (Unhit(cs[..|cs|], pure) + cs[|cs|..], AddLiterals(m, seen))
  {
    Dpll.CoveredAll(cs, pure, seen);
    assert cs[..|cs|] == cs && cs[|cs|..] == [];
    assert Unhit(cs[..|cs|], pure) + cs[|cs|..] == Unhit(cs, pure);
    PropagatePureResult(cs, m);
  }

  /** propagatePureLiterals: over a snapshot of the list, every clause holding a pure
      literal is removed from the live list, and the variable of each pure literal met
      is recorded with the literal's sign unless it already has a value. Returns the
      dictionary it was given. */
  method PropagatePureLiterals(clauses: ClauseList, assignments: AssignmentMap) returns (result: AssignmentMap)
    modifies clauses, assignments
    ensures result == assignments
    ensures (clauses.items, assignments.entries) ==
      PropagatePure(old(clauses.items), old(assignments.entries))
  {
    var pureLiterals := GetPureLiterals(clauses.items);
    var snapshot := clauses.items;
    ghost var m := assignments.entries;
    ghost var seen: set<int> := {};
    PureConsistent(snapshot);
    var position := 0;
    for k := 0 to |snapshot|
      invariant position == |Unhit(snapshot[..k], pureLiterals)|
      invariant clauses.items == Unhit(snapshot[..k], pureLiterals) + snapshot[k..]
      invariant seen <= pureLiterals
      invariant forall t :: 0 <= t < k ==> Dpll.Covered(snapshot[t], pureLiterals, seen)
      invariant assignments.entries == AddLiterals(m, seen)
    {
      var clause := snapshot[k];
      ghost var seenBefore := seen;
      var removeClause;
      removeClause, seen := Dpll.RecordPureLiterals(clause, pureLiterals, assignments, m, seen);
      CoveredPrefix(snapshot, k, pureLiterals, seenBefore, seen);
      UnhitForwardStep(snapshot, k, pureLiterals, clauses.items, position);
      if removeClause {
        clauses.RemoveAt(position);
      } else {
        position := position + 1;
      }
    }
    PureLoopDone(snapshot, m, pureLiterals, seen);
    result := assignments;
  }

  /** The copies recursiveDPLL branches on: both lists and dictionaries are copied, then
      the first variable of `1..numVariables` without a value is set true in the first
      copy and false in the second, and propagated through each copied list. */
  method BranchCopies(clauses: ClauseList, assignments: AssignmentMap, numVariables: int32)
      returns (firstNewList: ClauseList, secondNewList: ClauseList,
               firstNewDict: AssignmentMap, secondNewDict: AssignmentMap)
    requires Lowest(numVariables, assignments.entries) <= numVariables
    ensures fresh(firstNewList) && fresh(secondNewList) && fresh(firstNewDict) && fresh(secondNewDict)
    ensures firstNewList != secondNewList && firstNewDict != secondNewDict
    ensures var v := Lowest(numVariables, assignments.entries);
      && firstNewList.items == Propagate(clauses.items, v)
      && secondNewList.items == Propagate(clauses.items, -v)
      && firstNewDict.entries == assignments.entries[v := true]
      && secondNewDict.entries == assignments.entries[v := false]
  {
    ghost var v := Lowest(numVariables, assignments.entries);
    firstNewList := DeepCopyClauses(clauses);
    secondNewList := DeepCopyClauses(clauses);
    firstNewDict := new AssignmentMap(assignments.entries);
    secondNewDict := new AssignmentMap(assignments.entries);
    for i: int := 1 to numVariables as int + 1
      invariant i <= v
      invariant firstNewList.items == clauses.items && secondNewList.items == clauses.items
      invariant firstNewDict.entries == assignments.entries
      invariant secondNewDict.entries == assignments.entries
    {
      if i !in assignments.entries {
        assert i == v;
        ghost var c := clauses.items;
        PropagateAssignment(i, firstNewList);
        ghost var firstItems := firstNewList.items;
        assert firstItems == Propagate(c, v);
        assert secondNewList.items == c;
        PropagateAssignment(-i, secondNewList);
        assert secondNewList.items == Propagate(c, -v);
        assert firstNewList.items == firstItems && clauses.items == c;
        firstNewDict.Add(i, true);
        secondNewDict.Add(i, false);
        return;
      }
    }
  }

  /** recursiveDPLL: simplify the list and dictionary in place; an emptied list returns
      the dictionary, an empty clause returns a new empty dictionary; otherwise the
      lowest unassigned variable is set true on one copy and false on another, and each
      copy is solved in turn, twice when its first result is non-empty. When both copies
      fail, the simplified dictionary itself is returned. The result, the list and the
      dictionary are those `DpllSpec.Run` computes with the forward scan. */
  method DpllRec(clauses: ClauseList, assignments: AssignmentMap, numVariables: int32)
      returns (result: AssignmentMap)
    requires Inv(numVariables, clauses.items, assignments.entries)
    modifies clauses, assignments
    ensures (result.entries, clauses.items, assignments.entries) ==
      Run(Forward, numVariables, old(clauses.items), old(assignments.entries))
    decreases Unassigned(numVariables, assignments.entries), 3
  {
    ghost var cs := clauses.items;
    ghost var m := assignments.entries;
    var current := RemoveUnitClauses(clauses, assignments);
    current := PropagatePureLiterals(clauses, current);
    if |clauses.items| == 0 {
      return current;
    }
    var hasEmpty := ContainsEmptyClause(clauses.items);
    if hasEmpty {
      result := new AssignmentMap(map[]);
      return;
    }

    RunBranches(Forward, numVariables, cs, m);
    result := DpllBranch(clauses, current, numVariables, m);
  }

  /** One of the two tries of the branch: a
      copy is solved, and when the result is non-empty it is solved again on the list
      and dictionary the first call changed. `bound` is the set of unassigned variables
      of the caller. */
  method TryCopy(list: ClauseList, dict: AssignmentMap, numVariables: int32, ghost bound: set<int>)
      returns (found: bool, result: AssignmentMap)
    requires Inv(numVariables, list.items, dict.entries)
    requires Unassigned(numVariables, dict.entries) < bound
    modifies list, dict
    ensures var first := Run(Forward, numVariables, old(list.items), old(dict.entries));
      && found == (first.0 != map[])
      && (found ==> result.entries == Run(Forward, numVariables, first.1, first.2).0)
    decreases bound, 0
  {
    ghost var entries := dict.entries;
    var first := DpllRec(list, dict, numVariables);
    found := first.entries != map[];
    result := first;
    if found {
      UnassignedMono(numVariables, dict.entries, entries);
      result := DpllRec(list, dict, numVariables);
    }
  }

  /** The branching half of recursiveDPLL, on the simplified list and dictionary (which
      it leaves untouched); when both copies fail, the dictionary itself is returned. */
  method DpllBranch(clauses: ClauseList, assignments: AssignmentMap, numVariables: int32,
                    ghost m: map<int, bool>)
      returns (result: AssignmentMap)
    requires Inv(numVariables, clauses.items, assignments.entries)
    requires Extends(assignments.entries, m) && clauses.items != [] && [] !in clauses.items
    ensures result.entries == Branch(Forward, numVariables, m, clauses.items, assignments.entries)
    decreases Unassigned(numVariables, m), 2
  {
    BranchReady(numVariables, m, clauses.items, assignments.entries);
    var firstNewList, secondNewList, firstNewDict, secondNewDict :=
      BranchCopies(clauses, assignments, numVariables);
    var found, r := TryBoth(firstNewList, firstNewDict, secondNewList, secondNewDict,
                            numVariables, m, clauses.items, assignments.entries);
    if found {
      return r;
    }
    return assignments;
  }

  /** The two recursive attempts of the branching step, on the copies for `v` true and
      `v` false, where `v` is the lowest unassigned variable of `m2`. */
  method TryBoth(firstNewList: ClauseList, firstNewDict: AssignmentMap,
                 secondNewList: ClauseList, secondNewDict: AssignmentMap, numVariables: int32,
                 ghost m: map<int, bool>, ghost c2: Formula, ghost m2: map<int, bool>)
      returns (found: bool, result: AssignmentMap)
    requires Inv(numVariables, c2, m2) && Extends(m2, m) && c2 != [] && [] !in c2
    requires firstNewList != secondNewList && firstNewDict != secondNewDict
    requires firstNewList.items == Propagate(c2, Lowest(numVariables, m2))
    requires firstNewDict.entries == m2[Lowest(numVariables, m2) := true]
    requires secondNewList.items == Propagate(c2, -Lowest(numVariables, m2))
    requires secondNewDict.entries == m2[Lowest(numVariables, m2) := false]
    modifies firstNewList, firstNewDict, secondNewList, secondNewDict
    ensures found ==> result.entries == Branch(Forward, numVariables, m, c2, m2)
    ensures !found ==> Branch(Forward, numVariables, m, c2, m2) == m2
    decreases Unassigned(numVariables, m), 1
  {
    BranchReady(numVariables, m, c2, m2);
    ghost var l1, a1 := firstNewList.items, firstNewDict.entries;
    ghost var l2, a2 := secondNewList.items, secondNewDict.entries;
    ghost var firstRun := Run(Forward, numVariables, l1, a1);
    ghost var secondRun := Run(Forward, numVariables, l2, a2);

    found, result := TryCopy(firstNewList, firstNewDict, numVariables, Unassigned(numVariables, m));
    if found {
      BranchTakesTrue(Forward, numVariables, m, c2, m2, l1, a1, firstRun);
      return;
    }
    found, result := TryCopy(secondNewList, secondNewDict, numVariables, Unassigned(numVariables, m));
    if found {
      BranchTakesFalse(Forward, numVariables, m, c2, m2, l1, a1, firstRun, l2, a2, secondRun);
      return;
    }
    BranchFails(Forward, numVariables, m, c2, m2, l1, a1, firstRun, l2, a2, secondRun);
  }

  /** Solve: runs recursiveDPLL from an empty dictionary and reads off one value per
      variable, true for a variable the result does not mention. */
  method Solve(numVariables: int32, clauses: ClauseList) returns (input: seq<bool>)
    requires 0 <= numVariables && Inv(numVariables, clauses.items, map[])
    modifies clauses
    ensures input == InputOf(numVariables, Run(Forward, numVariables, old(clauses.items), map[]).0)
  {
    var empty := new AssignmentMap(map[]);
    var assignments := DpllRec(clauses, empty, numVariables);
    input := Dpll.InputFrom(numVariables, assignments);
  }
}
