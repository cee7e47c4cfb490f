/** What DPLL.cs and DPLL_aintgotno.cs compute, as functions on values. The two files run
    the same algorithm and differ only in which unit clause `removeUnitClauses` takes
    first: DPLL.cs scans from the back and takes the last one, DPLL_aintgotno.cs takes
    the first. `Run` reproduces the recursion exactly, including its two quirks: the
    successful branch is called a second time on the list and dictionary the first call
    already changed, and when both branches fail the current assignments are returned
    rather than an empty dictionary. */
module DpllSpec {
  import opened Common

  /** Which unit clause `removeUnitClauses` takes in each round. */
  datatype Scan = Backward | Forward

  // ---- Assignments ----

  /** `m2` keeps every entry of `m1`. */
  predicate Extends(m2: map<int, bool>, m1: map<int, bool>)
  {
    forall v :: v in m1 ==> v in m2 && m2[v] == m1[v]
  }

  lemma ExtendsTrans(m3: map<int, bool>, m2: map<int, bool>, m1: map<int, bool>)
    requires Extends(m3, m2) && Extends(m2, m1)
    ensures Extends(m3, m1)
  {
  }

  /** Every key is one of the variables `1..n`. */
  predicate KeysIn(n: int, m: map<int, bool>)
  {
    forall v :: v in m ==> 1 <= v <= n
  }

  /** No clause mentions a variable that already has a value. */
  predicate Disjoint(cs: Formula, m: map<int, bool>)
  {
    forall c, x :: c in cs && x in c ==> Abs(x) !in m
  }

  /** The clause names distinct variables, all among `1..n` and all without a value. */
  predicate ClauseFits(n: int, c: Clause, m: map<int, bool>)
  {
    DistinctVars(c) && forall x :: x in c ==> InRange(n, x) && Abs(x) !in m
  }

  /** The state every call of `DPLL` starts and ends in: the clauses are well formed and
      mention no assigned variable, and every assigned variable is among `1..n`. */
  predicate Inv(n: int, cs: Formula, m: map<int, bool>)
  {
    (forall c :: c in cs ==> ClauseFits(n, c, m)) && KeysIn(n, m)
  }

  lemma InvIff(n: int, cs: Formula, m: map<int, bool>)
    ensures Inv(n, cs, m) <==> WellFormed(n, cs) && Disjoint(cs, m) && KeysIn(n, m)
  {
  }

  /** `input` gives every assigned variable its assigned value. */
  predicate Agrees(input: seq<bool>, m: map<int, bool>)
  {
    forall v :: v in m ==> 1 <= v <= |input| && input[v - 1] == m[v]
  }

  /** The variables among `1..n` without a value. */
  function Unassigned(n: int, m: map<int, bool>): set<int>
  {
    set v | 1 <= v <= n && v !in m
  }

  lemma UnassignedShrinks(n: int, m: map<int, bool>, m': map<int, bool>, i: int)
    requires Extends(m', m) && 1 <= i <= n && i !in m && i in m'
    ensures Unassigned(n, m') < Unassigned(n, m)
  {
    assert i in Unassigned(n, m) - Unassigned(n, m');
  }

  // ---- propagateAssignment ----

  /** `propagateAssignment(l, clauses)`: every clause containing `l` is dropped, every
      other clause loses its first `-l`; the survivors keep their order. */
  function Propagate(cs: Formula, l: int): (r: Formula)
    ensures |r| <= |cs|
  {
    if cs == [] then []
    else if l in cs[0] then Propagate(cs[1..], l)
    else [RemoveFirst(cs[0], -l)] + Propagate(cs[1..], l)
  }

  /** The survivors of propagating `l` are exactly the clauses without `l`, each minus
      its first `-l`. */
  lemma {:induction false} PropagateMembers(cs: Formula, l: int)
    ensures forall c :: c in Propagate(cs, l) <==> exists d :: d in cs && l !in d && c == RemoveFirst(d, -l)
  {
    if cs != [] {
      PropagateMembers(cs[1..], l);
      assert forall d :: d in cs <==> d == cs[0] || d in cs[1..];
    }
  }

  lemma PropagateAppend(a: Formula, b: Formula, l: int)
    ensures Propagate(a + b, l) == Propagate(a, l) + Propagate(b, l)
  {
    if a == [] {
      assert a + b == b;
    } else {
      assert (a + b)[0] == a[0];
      assert (a + b)[1..] == a[1..] + b;
      PropagateAppend(a[1..], b, l);
    }
  }

  /** One clause in front: it is dropped when it holds `l`, and otherwise loses its `-l`. */
  lemma PropagateCons(c: Clause, rest: Formula, l: int)
    ensures Propagate([c] + rest, l) == (if l in c then [] else [RemoveFirst(c, -l)]) + Propagate(rest, l)
  {
    assert ([c] + rest)[0] == c;
    assert ([c] + rest)[1..] == rest;
  }

  /** `Propagate` on a suffix, by its first clause. */
  lemma PropagateSuffix(cs: Formula, k: nat, l: int)
    requires k < |cs|
    ensures Propagate(cs[k..], l) ==
      (if l in cs[k] then [] else [RemoveFirst(cs[k], -l)]) + Propagate(cs[k + 1..], l)
  {
    assert cs[k..] == [cs[k]] + cs[k + 1..];
    PropagateCons(cs[k], cs[k + 1..], l);
  }

  /** One step of a backward propagation pass over `cs`: the clause at `k` is removed
      when it holds `l`, loses its `-l` when it holds that, and is kept otherwise. */
  lemma PropagateBackStep(cs: Formula, k: nat, l: int)
    requires k < |cs|
    ensures var items := cs[..k + 1] + Propagate(cs[k + 1..], l);
      && items[k] == cs[k]
      && (if l in cs[k] then items[..k] + items[k + 1..]
          else if -l in cs[k] then items[k := RemoveFirst(cs[k], -l)]
          else items) == cs[..k] + Propagate(cs[k..], l)
  {
    PropagateSuffix(cs, k, l);
    PrefixSnoc(cs, k);
    var items := cs[..k + 1] + Propagate(cs[k + 1..], l);
    if l in cs[k] {
      assert items[..k] == cs[..k];
      assert items[k + 1..] == Propagate(cs[k + 1..], l);
    } else if -l !in cs[k] {
      assert RemoveFirst(cs[k], -l) == cs[k];
    }
  }

  /** One step of a forward propagation pass over a snapshot `cs` of the list: the
      processed prefix is already propagated, and the clause at `k` sits at `position`,
      right after it in the live list `items`, where it is removed, loses its `-l`, or
      is kept. */
  lemma PropagateForwardStep(cs: Formula, k: nat, l: int, items: Formula, position: int)
    requires k < |cs|
    requires items == Propagate(cs[..k], l) + cs[k..] && position == |Propagate(cs[..k], l)|
    ensures 0 <= position < |items| && items[position] == cs[k]
    ensures l in cs[k] ==>
      && items[..position] + items[position + 1..] == Propagate(cs[..k + 1], l) + cs[k + 1..]
      && |Propagate(cs[..k + 1], l)| == position
    ensures l !in cs[k] && -l in cs[k] ==>
      && items[position := RemoveFirst(cs[k], -l)] == Propagate(cs[..k + 1], l) + cs[k + 1..]
      && |Propagate(cs[..k + 1], l)| == position + 1
    ensures l !in cs[k] && -l !in cs[k] ==>
      && items == Propagate(cs[..k + 1], l) + cs[k + 1..]
      && |Propagate(cs[..k + 1], l)| == position + 1
  {
    var done := Propagate(cs[..k], l);
    var tail := cs[k + 1..];
    var r := RemoveFirst(cs[k], -l);
    PrefixSnoc(cs, k);
    PropagateAppend(cs[..k], [cs[k]], l);
    assert cs[k..] == [cs[k]] + tail;
    Splice(done, cs[k], tail, r);
    if l in cs[k] {
      assert Propagate([cs[k]], l) == [] by {
        assert [cs[k]][1..] == [];
      }
      assert Propagate(cs[..k + 1], l) == done;
    } else {
      assert Propagate([cs[k]], l) == [r] by {
        assert [cs[k]][1..] == [];
      }
      assert Propagate(cs[..k + 1], l) + tail == done + ([r] + tail);
      if -l !in cs[k] {
        assert r == cs[k];
      }
    }
  }

  /** A clause without `l` that holds under an input making `l` true still holds once
      `-l` is removed from it, and conversely. */
  lemma RemoveFirstHolds(d: Clause, l: int, input: seq<bool>)
    requires Holds(l, input)
    ensures (exists x :: x in RemoveFirst(d, -l) && Holds(x, input)) <==> (exists x :: x in d && Holds(x, input))
  {
    if -l in d {
      RemoveFirstMembers(d, -l);
    }
    if x :| x in d && Holds(x, input) {
      assert x != -l;
      assert x in RemoveFirst(d, -l);
    }
  }

  /** Under an input that makes `l` true, propagating `l` changes nothing about which
      clauses are satisfied: the dropped clauses hold through `l`, and the removed `-l`
      is false anyway. */
  lemma PropagateSatisfies(cs: Formula, l: int, input: seq<bool>)
    requires Holds(l, input)
    ensures Satisfies(Propagate(cs, l), input) <==> Satisfies(cs, input)
  {
    var r := Propagate(cs, l);
    PropagateMembers(cs, l);
    if Satisfies(cs, input) {
      forall c | c in r
        ensures exists x :: x in c && Holds(x, input)
      {
        var d :| d in cs && l !in d && c == RemoveFirst(d, -l);
        RemoveFirstHolds(d, l, input);
      }
    }
    if Satisfies(r, input) {
      forall d | d in cs
        ensures exists x :: x in d && Holds(x, input)
      {
        if l !in d {
          assert RemoveFirst(d, -l) in r;
          RemoveFirstHolds(d, l, input);
        }
      }
    }
  }

  /** One clause that survives propagating `l` still fits once `l`'s variable has a value. */
  lemma PropagateClauseFits(n: int, d: Clause, m: map<int, bool>, l: int, b: bool)
    requires ClauseFits(n, d, m) && l !in d && Abs(l) !in m
    ensures ClauseFits(n, RemoveFirst(d, -l), m[Abs(l) := b])
  {
    var r := RemoveFirst(d, -l);
    if -l in d {
      RemoveFirstMembers(d, -l);
      RemoveFirstDistinct(d, -l);
      RemoveFirstGone(d, -l);
    }
    assert DistinctVars(r);
    forall x | x in r
      ensures InRange(n, x) && Abs(x) !in m[Abs(l) := b]
    {
      assert x in d && x != l && x != -l;
    }
  }

  /** Propagating an unassigned in-range literal and recording its variable keeps the
      invariant: the survivors no longer mention that variable. */
  lemma PropagateInv(n: int, cs: Formula, m: map<int, bool>, l: int, b: bool)
    requires Inv(n, cs, m) && InRange(n, l) && Abs(l) !in m
    ensures Inv(n, Propagate(cs, l), m[Abs(l) := b])
  {
    PropagateMembers(cs, l);
    forall c | c in Propagate(cs, l)
      ensures ClauseFits(n, c, m[Abs(l) := b])
    {
      var d :| d in cs && l !in d && c == RemoveFirst(d, -l);
      PropagateClauseFits(n, d, m, l, b);
    }
  }

  // ---- removeUnitClauses ----

  /** The index of the last clause with exactly one literal, or -1 when there is none. */
  function LastUnit(cs: Formula): (k: int)
    ensures -1 <= k < |cs|
    ensures k >= 0 ==> |cs[k]| == 1 && forall j :: k < j < |cs| ==> |cs[j]| != 1
    ensures k == -1 ==> forall j :: 0 <= j < |cs| ==> |cs[j]| != 1
  {
    if cs == [] then -1
    else if |cs[|cs| - 1]| == 1 then |cs| - 1
    else LastUnit(cs[..|cs| - 1])
  }

  /** The index of the first clause with exactly one literal, or -1 when there is none. */
  function FirstUnit(cs: Formula): (k: int)
    ensures -1 <= k < |cs|
    ensures k >= 0 ==> |cs[k]| == 1 && forall j :: 0 <= j < k ==> |cs[j]| != 1
    ensures k == -1 ==> forall j :: 0 <= j < |cs| ==> |cs[j]| != 1
  {
    if cs == [] then -1
    else if |cs[0]| == 1 then 0
    else
      var k := FirstUnit(cs[1..]);
      if k < 0 then -1 else k + 1
  }

  /** The unit clause a round of `removeUnitClauses` takes. */
  function UnitIndex(scan: Scan, cs: Formula): int
  {
    match scan
    case Backward => LastUnit(cs)
    case Forward => FirstUnit(cs)
  }

  /** Records the literal's variable with the literal's sign, unless it already has a value
      (`if (!assignments.ContainsKey(...)) assignments.Add(...)`). */
  function Record(m: map<int, bool>, l: int): (r: map<int, bool>)
    ensures Extends(r, m) && r.Keys == m.Keys + {Abs(l)}
    ensures Abs(l) !in m ==> r[Abs(l)] == (l > 0)
  {
    if Abs(l) in m then m else m[Abs(l) := l > 0]
  }

  /** `removeUnitClauses`: while a unit clause `[l]` remains, record `l`, remove that
      clause and propagate `l`. No unit clause is left, and no entry is overwritten. */
  function RemoveUnits(scan: Scan, cs: Formula, m: map<int, bool>): (r: (Formula, map<int, bool>))
    ensures forall c :: c in r.0 ==> |c| != 1
    ensures |r.0| <= |cs|
    ensures Extends(r.1, m)
    decreases |cs|
  {
    var k := UnitIndex(scan, cs);
    if k < 0 then (cs, m)
    else
      var l := cs[k][0];
      RemoveUnits(scan, Propagate(cs[..k] + cs[k + 1..], l), Record(m, l))
  }

  /** One round of unit removal keeps the invariant; the unit's variable had no value. */
  lemma UnitStepInv(n: int, cs: Formula, m: map<int, bool>, k: nat)
    requires Inv(n, cs, m) && k < |cs| && |cs[k]| == 1
    ensures Abs(cs[k][0]) !in m
    ensures Inv(n, Propagate(cs[..k] + cs[k + 1..], cs[k][0]), Record(m, cs[k][0]))
  {
    var l := cs[k][0];
    assert cs[k] in cs && l in cs[k];
    var rest := cs[..k] + cs[k + 1..];
    assert forall c :: c in rest ==> c in cs;
    PropagateInv(n, rest, m, l, l > 0);
  }

  /** Under an input that makes the unit's literal true, one round of unit removal changes
      nothing about which clauses are satisfied. */
  lemma UnitStepSatisfies(cs: Formula, k: nat, input: seq<bool>)
    requires k < |cs| && |cs[k]| == 1 && Holds(cs[k][0], input)
    ensures Satisfies(Propagate(cs[..k] + cs[k + 1..], cs[k][0]), input) <==> Satisfies(cs, input)
  {
    var l := cs[k][0];
    var rest := cs[..k] + cs[k + 1..];
    PropagateSatisfies(rest, l, input);
    assert cs == cs[..k] + [cs[k]] + cs[k + 1..];
    assert cs[k] == [l];
    assert forall c :: c in cs <==> c in rest || c == [l];
  }

  /** A literal recorded into a variable without a value holds under every input that
      agrees with an extension of the record. */
  lemma RecordedHolds(l: int, m: map<int, bool>, final: map<int, bool>, input: seq<bool>)
    requires Abs(l) !in m && Extends(final, Record(m, l)) && Agrees(input, final)
    ensures Holds(l, input)
  {
    assert Record(m, l)[Abs(l)] == (l > 0);
    assert final[Abs(l)] == (l > 0);
  }

  /** One round of `removeUnitClauses` under an input agreeing with the final
      assignments: the round shortens the list, keeps the invariant, and the input agrees
      with what the rest of the removal records. */
  lemma UnitRound(scan: Scan, n: int, cs: Formula, m: map<int, bool>, input: seq<bool>, k: int,
                  cs1: Formula, m1: map<int, bool>)
    requires Inv(n, cs, m) && k == UnitIndex(scan, cs) && k >= 0
    requires m1 == Record(m, cs[k][0]) && cs1 == Propagate(cs[..k] + cs[k + 1..], cs[k][0])
    requires Agrees(input, RemoveUnits(scan, cs, m).1)
    ensures |cs1| < |cs|
    ensures Inv(n, cs1, m1)
    ensures Agrees(input, RemoveUnits(scan, cs1, m1).1)
  {
    assert RemoveUnits(scan, cs, m) == RemoveUnits(scan, cs1, m1);
    UnitStepInv(n, cs, m, k);
  }

  /** One round of `removeUnitClauses` as the induction over the removal needs it: the
      list `cs1` and dictionary `m1` after the round, on which the invariant and the
      agreement still hold, and if the rest of the removal preserves which clauses `input`
      satisfies, so does the whole removal. */
  lemma UnitRoundSatisfies(scan: Scan, n: int, cs: Formula, m: map<int, bool>, input: seq<bool>)
      returns (cs1: Formula, m1: map<int, bool>)
    requires Inv(n, cs, m) && UnitIndex(scan, cs) >= 0
    requires Agrees(input, RemoveUnits(scan, cs, m).1)
    ensures |cs1| < |cs| && Inv(n, cs1, m1) && Agrees(input, RemoveUnits(scan, cs1, m1).1)
    ensures SatisfiesSame(scan, cs1, m1, input) ==> SatisfiesSame(scan, cs, m, input)
  {
    var k := UnitIndex(scan, cs);
    var l := cs[k][0];
    m1 := Record(m, l);
    cs1 := Propagate(cs[..k] + cs[k + 1..], l);
    UnitRound(scan, n, cs, m, input, k, cs1, m1);
    assert RemoveUnits(scan, cs, m) == RemoveUnits(scan, cs1, m1);
    UnitStepInv(n, cs, m, k);
    RecordedHolds(l, m, RemoveUnits(scan, cs1, m1).1, input);
    UnitStepSatisfies(cs, k, input);
  }

  /** Removing unit clauses keeps the invariant. */
  lemma {:induction false} RemoveUnitsInv(scan: Scan, n: int, cs: Formula, m: map<int, bool>)
    requires Inv(n, cs, m)
    ensures Inv(n, RemoveUnits(scan, cs, m).0, RemoveUnits(scan, cs, m).1)
    decreases |cs|
  {
    var k := UnitIndex(scan, cs);
    if k >= 0 {
      var l := cs[k][0];
      UnitStepInv(n, cs, m, k);
      RemoveUnitsInv(scan, n, Propagate(cs[..k] + cs[k + 1..], l), Record(m, l));
    }
  }

  /** `input` satisfies the clauses before unit removal exactly when it satisfies those
      after it. */
  predicate SatisfiesSame(scan: Scan, cs: Formula, m: map<int, bool>, input: seq<bool>)
  {
    Satisfies(RemoveUnits(scan, cs, m).0, input) <==> Satisfies(cs, input)
  }

  /** Every input that agrees with the recorded assignments satisfies the clauses before
      unit removal exactly when it satisfies those after it. */
  lemma {:induction false} RemoveUnitsSatisfies(scan: Scan, n: int, cs: Formula, m: map<int, bool>, input: seq<bool>)
    requires Inv(n, cs, m)
    requires Agrees(input, RemoveUnits(scan, cs, m).1)
    ensures SatisfiesSame(scan, cs, m, input)
    decreases |cs|
  {
    if UnitIndex(scan, cs) >= 0 {
      var cs1, m1 := UnitRoundSatisfies(scan, n, cs, m, input);
      RemoveUnitsSatisfies(scan, n, cs1, m1, input);
    } else {
      assert RemoveUnits(scan, cs, m) == (cs, m);
    }
  }

  // ---- propagatePureLiterals ----

  /** The variables of a set of literals. */
  function VarsOf(s: set<int>): set<int>
  {
    set x | x in s :: Abs(x)
  }

  /** The assignments after recording the literals of `s`, each with its own sign, for the
      variables that have no value yet. */
  function AddLiterals(m: map<int, bool>, s: set<int>): map<int, bool>
  {
    map v | v in m.Keys + VarsOf(s) :: if v in m then m[v] else v in s
  }

  /** A pure literal's negation is never pure. */
  lemma PureConsistent(cs: Formula)
    ensures forall x :: x in PureLiterals(cs) ==> -x !in PureLiterals(cs)
  {
  }

  /** Recording one more literal `x` of a set `p` holding no literal with its negation:
      the dictionary gains `|x| -> x > 0` exactly when `|x|` had no value. */
  lemma AddLiteralStep(m: map<int, bool>, s: set<int>, p: set<int>, x: int)
    requires s <= p && x in p
    requires forall y :: y in p ==> -y !in p
    ensures AddLiterals(m, s + {x}) ==
      if Abs(x) in AddLiterals(m, s) then AddLiterals(m, s) else AddLiterals(m, s)[Abs(x) := x > 0]
  {
    if Abs(x) in VarsOf(s) {
      var y :| y in s && Abs(y) == Abs(x);
      assert y == x;
      assert s + {x} == s;
    } else {
      AddLiteralFresh(m, s, x);
    }
  }

  lemma VarsOfInsert(s: set<int>, x: int)
    ensures VarsOf(s + {x}) == VarsOf(s) + {Abs(x)}
  {
  }

  /** The step of `AddLiteralStep` for a literal whose variable `s` does not mention. */
  lemma AddLiteralFresh(m: map<int, bool>, s: set<int>, x: int)
    requires x != 0 && Abs(x) !in VarsOf(s)
    ensures AddLiterals(m, s + {x}) ==
      if Abs(x) in m then AddLiterals(m, s) else AddLiterals(m, s)[Abs(x) := x > 0]
  {
    var before := AddLiterals(m, s);
    var after := AddLiterals(m, s + {x});
    assert after.Keys == before.Keys + {Abs(x)} by {
      VarsOfInsert(s, x);
    }
    assert forall v :: v in before.Keys ==> after[v] == before[v] by {
      forall v | v in before.Keys
        ensures after[v] == before[v]
      {
        if v !in m {
          assert v in VarsOf(s);
          assert v != x;
        }
      }
    }
    if Abs(x) !in m {
      assert after[Abs(x)] == (x > 0) by {
        if x < 0 {
          assert -x !in s;
        }
      }
      MapGrows(after, before, Abs(x));
    } else {
      MapGrows(after, before, Abs(x));
    }
  }

  /** A map that agrees with `before` on its keys and has one more key `k` is `before`
      updated at `k`. */
  lemma MapGrows(after: map<int, bool>, before: map<int, bool>, k: int)
    requires after.Keys == before.Keys + {k}
    requires forall v :: v in before.Keys ==> after[v] == before[v]
    ensures k in before ==> after == before
    ensures k !in before ==> after == before[k := after[k]]
  {
    if k in before {
      assert after.Keys == before.Keys;
      assert forall v :: v in after ==> after[v] == before[v];
    } else {
      var grown := before[k := after[k]];
      assert after.Keys == grown.Keys;
      assert forall v :: v in after ==> after[v] == grown[v];
    }
  }

  /** `propagatePureLiterals`: the pure literals are computed once; every clause holding
      one is removed, the others keep their order; each pure literal's variable is
      recorded with the literal's sign unless it already has a value. */
  function PropagatePure(cs: Formula, m: map<int, bool>): (r: (Formula, map<int, bool>))
    ensures forall c :: c in r.0 <==> c in cs && !Hits(c, PureLiterals(cs))
    ensures Extends(r.1, m)
    ensures forall p :: p in PureLiterals(cs) && Abs(p) !in m ==> Abs(p) in r.1 && r.1[Abs(p)] == (p > 0)
  {
    var pure := PureLiterals(cs);
    var r := (Unhit(cs, pure), AddLiterals(m, pure));
    UnhitMembers(cs, pure);
    assert forall p :: p in pure && Abs(p) !in m ==> Abs(p) in VarsOf(pure);
    forall p | p in pure && Abs(p) !in m
      ensures r.1[Abs(p)] == (p > 0)
    {
      if p < 0 {
        assert -p in Literals(cs) ==> false;
      }
    }
    r
  }

  lemma PropagatePureResult(cs: Formula, m: map<int, bool>)
    ensures PropagatePure(cs, m) == (Unhit(cs, PureLiterals(cs)), AddLiterals(m, PureLiterals(cs)))
  {
  }

  /** Pure-literal elimination keeps the invariant. */
  lemma PropagatePureInv(n: int, cs: Formula, m: map<int, bool>)
    requires Inv(n, cs, m)
    ensures Inv(n, PropagatePure(cs, m).0, PropagatePure(cs, m).1)
  {
    var pure := PureLiterals(cs);
    var (cs', m') := PropagatePure(cs, m);
    forall v | v in m'
      ensures 1 <= v <= n
    {
      if v !in m {
        var x :| x in pure && Abs(x) == v;
        var c :| c in cs && x in c;
        assert ClauseFits(n, c, m);
      }
    }
    forall c | c in cs'
      ensures ClauseFits(n, c, m')
    {
      assert ClauseFits(n, c, m);
    }
  }

  /** Every input that agrees with the new assignments satisfies the clauses before
      pure-literal elimination exactly when it satisfies those after it. */
  lemma PropagatePureSatisfies(n: int, cs: Formula, m: map<int, bool>, input: seq<bool>)
    requires Inv(n, cs, m)
    requires Agrees(input, PropagatePure(cs, m).1)
    ensures Satisfies(PropagatePure(cs, m).0, input) <==> Satisfies(cs, input)
  {
    var pure := PureLiterals(cs);
    var (cs', m') := PropagatePure(cs, m);
    forall c | c in cs && Hits(c, pure)
      ensures exists x :: x in c && Holds(x, input)
    {
      var p :| p in c && p in pure;
      assert Abs(p) !in m;
      assert Holds(p, input);
    }
  }

  // ---- DPLL ----

  /** The smallest variable among `i..n` without a value, or `n + 1` when there is none. */
  function LowestFrom(n: int, m: map<int, bool>, i: int): (r: int)
    requires 1 <= i
    ensures i <= r && (r <= n || r == n + 1 || (r == i && i > n))
    ensures r <= n ==> r !in m
    ensures forall v :: i <= v < r && v <= n ==> v in m
    decreases n - i
  {
    if i > n then i
    else if i !in m then i
    else LowestFrom(n, m, i + 1)
  }

  /** The variable the branch picks: the lowest of `1..n` without an assignment, or
      a number above `n` when every one has one. */
  function Lowest(n: int, m: map<int, bool>): (r: int)
    ensures 1 <= r
    ensures r <= n ==> r !in m && forall v :: 1 <= v < r ==> v in m
    ensures r > n ==> forall v :: 1 <= v <= n ==> v in m
  {
    LowestFrom(n, m, 1)
  }

  /** While a nonempty clause remains, some variable of `1..n` has no value. */
  lemma LowestExists(n: int, cs: Formula, m: map<int, bool>)
    requires Inv(n, cs, m) && cs != [] && cs[0] != []
    ensures Lowest(n, m) <= n
  {
    var x := cs[0][0];
    assert cs[0] in cs && x in cs[0];
    assert Abs(x) !in m && 1 <= Abs(x) <= n;
  }

  /** Unit removal then pure-literal elimination, as the first two lines of `DPLL`. */
  function Simplify(scan: Scan, cs: Formula, m: map<int, bool>): (r: (Formula, map<int, bool>))
    ensures forall c :: c in r.0 ==> |c| != 1
    ensures Extends(r.1, m)
  {
    var (c1, m1) := RemoveUnits(scan, cs, m);
    ExtendsTrans(PropagatePure(c1, m1).1, m1, m);
    PropagatePure(c1, m1)
  }

  lemma SimplifyInv(scan: Scan, n: int, cs: Formula, m: map<int, bool>)
    requires Inv(n, cs, m)
    ensures Inv(n, Simplify(scan, cs, m).0, Simplify(scan, cs, m).1)
    ensures Extends(Simplify(scan, cs, m).1, m)
  {
    RemoveUnitsInv(scan, n, cs, m);
    var (c1, m1) := RemoveUnits(scan, cs, m);
    PropagatePureInv(n, c1, m1);
    ExtendsTrans(Simplify(scan, cs, m).1, m1, m);
  }

  /** Every input agreeing with the simplified assignments satisfies the clauses before
      simplification exactly when it satisfies those after it. */
  lemma SimplifySatisfies(scan: Scan, n: int, cs: Formula, m: map<int, bool>, input: seq<bool>)
    requires Inv(n, cs, m)
    requires Agrees(input, Simplify(scan, cs, m).1)
    ensures Satisfies(Simplify(scan, cs, m).0, input) <==> Satisfies(cs, input)
  {
    RemoveUnitsInv(scan, n, cs, m);
    var (c1, m1) := RemoveUnits(scan, cs, m);
    var m2 := Simplify(scan, cs, m).1;
    assert Agrees(input, m1) by {
      assert Extends(m2, m1);
    }
    RemoveUnitsSatisfies(scan, n, cs, m, input);
    PropagatePureSatisfies(n, c1, m1, input);
  }

  /** Adding entries only removes variables from the unassigned ones. */
  lemma UnassignedMono(n: int, m': map<int, bool>, m: map<int, bool>)
    requires Extends(m', m)
    ensures Unassigned(n, m') <= Unassigned(n, m)
  {
  }

  /** What branching on the lowest unassigned variable `i` of a simplified, nonempty
      clause list without an empty clause relies on: `i` exists, both branches keep the
      invariant, and any state extending a branch has fewer unassigned variables. */
  lemma BranchReady(n: int, m: map<int, bool>, c2: Formula, m2: map<int, bool>)
    requires Inv(n, c2, m2) && Extends(m2, m) && c2 != [] && [] !in c2
    ensures 1 <= Lowest(n, m2) <= n && Lowest(n, m2) !in m2
    ensures Inv(n, Propagate(c2, Lowest(n, m2)), m2[Lowest(n, m2) := true])
    ensures Inv(n, Propagate(c2, -Lowest(n, m2)), m2[Lowest(n, m2) := false])
    ensures Extends(m2[Lowest(n, m2) := true], m) && Extends(m2[Lowest(n, m2) := false], m)
    ensures forall m' :: Extends(m', m2[Lowest(n, m2) := true]) ==> Unassigned(n, m') < Unassigned(n, m)
    ensures forall m' :: Extends(m', m2[Lowest(n, m2) := false]) ==> Unassigned(n, m') < Unassigned(n, m)
  {
    assert c2[0] in c2;
    LowestExists(n, c2, m2);
    var i := Lowest(n, m2);
    PropagateInv(n, c2, m2, i, true);
    PropagateInv(n, c2, m2, -i, false);
    BranchShrinks(n, m, m2, i, true);
    BranchShrinks(n, m, m2, i, false);
  }

  /** Giving the unassigned variable `i` a value leaves fewer unassigned variables than
      `m` had, in every later state. */
  lemma BranchShrinks(n: int, m: map<int, bool>, m2: map<int, bool>, i: int, b: bool)
    requires Extends(m2, m) && 1 <= i <= n && i !in m2
    ensures Extends(m2[i := b], m)
    ensures forall m' :: Extends(m', m2[i := b]) ==> Unassigned(n, m') < Unassigned(n, m)
  {
    forall m' | Extends(m', m2[i := b])
      ensures Unassigned(n, m') < Unassigned(n, m)
    {
      ExtendsTrans(m', m2[i := b], m2);
      ExtendsTrans(m', m2, m);
      UnassignedShrinks(n, m, m', i);
    }
  }

  /** One call of `DPLL(clauses, assignments, numVariables)`: the dictionary it returns,
      and what the call leaves in the `clauses` list and the `assignments` dictionary it
      was given (both are changed in place by the simplification, and only by it). After
      simplification, no clause left returns the assignments and an empty clause returns
      an empty dictionary; otherwise the call branches. The result is either empty or
      extends the assignments the call was given. */
  function Run(scan: Scan, n: int, cs: Formula, m: map<int, bool>): (r: (map<int, bool>, Formula, map<int, bool>))
    requires Inv(n, cs, m)
    ensures Inv(n, r.1, r.2) && Extends(r.2, m)
    ensures r.0 == map[] || (Extends(r.0, m) && KeysIn(n, r.0))
    decreases Unassigned(n, m), 1
  {
    SimplifyInv(scan, n, cs, m);
    var s := Simplify(scan, cs, m);
    if s.0 == [] then (s.1, s.0, s.1)
    else if [] in s.0 then (map[], s.0, s.1)
    else
      var b := Branch(scan, n, m, s.0, s.1);
      if b == map[] then (b, s.0, s.1)
      else
        ExtendsTrans(b, s.1, m);
        (b, s.0, s.1)
  }

  /** The branching half of `DPLL` on the simplified clauses `c2` and assignments `m2`:
      the lowest unassigned variable `i`, true first on a copy, false on another copy only
      when the first result is empty. A non-empty result is recomputed by a second call on
      the copy the first call already changed; when both are empty, `m2` itself is the
      result. */
  function Branch(scan: Scan, n: int, m: map<int, bool>, c2: Formula, m2: map<int, bool>): (r: map<int, bool>)
    requires Inv(n, c2, m2) && Extends(m2, m) && c2 != [] && [] !in c2
    ensures r == map[] || (Extends(r, m2) && KeysIn(n, r))
    decreases Unassigned(n, m), 0
  {
    BranchReady(n, m, c2, m2);
    var i := Lowest(n, m2);
    var first := Run(scan, n, Propagate(c2, i), m2[i := true]);
    if first.0 != map[] then
      var again := Run(scan, n, first.1, first.2);
      if again.0 == map[] then again.0
      else
        ExtendsTrans(first.2, m2[i := true], m2);
        ExtendsTrans(again.0, first.2, m2);
        again.0
    else
      var second := Run(scan, n, Propagate(c2, -i), m2[i := false]);
      if second.0 != map[] then
        var again := Run(scan, n, second.1, second.2);
        if again.0 == map[] then again.0
        else
          ExtendsTrans(second.2, m2[i := false], m2);
          ExtendsTrans(again.0, second.2, m2);
          again.0
      else m2
  }

  /** `Run` on a list that simplification neither empties nor gives an empty clause:
      the result is `Branch`'s, alongside the simplified list and dictionary. */
  lemma RunBranches(scan: Scan, n: int, cs: Formula, m: map<int, bool>)
    requires Inv(n, cs, m)
    requires Simplify(scan, cs, m).0 != [] && [] !in Simplify(scan, cs, m).0
    ensures Inv(n, Simplify(scan, cs, m).0, Simplify(scan, cs, m).1)
    ensures Extends(Simplify(scan, cs, m).1, m)
    ensures Run(scan, n, cs, m) ==
      (Branch(scan, n, m, Simplify(scan, cs, m).0, Simplify(scan, cs, m).1),
       Simplify(scan, cs, m).0, Simplify(scan, cs, m).1)
  {
    SimplifyInv(scan, n, cs, m);
  }

  /** `Branch` when the true copy (list `l1`, dictionary `a1`) gives a non-empty first
      result: the true copy's second result. */
  lemma BranchTakesTrue(scan: Scan, n: int, m: map<int, bool>, c2: Formula, m2: map<int, bool>,
                        l1: Formula, a1: map<int, bool>, first: (map<int, bool>, Formula, map<int, bool>))
    requires Inv(n, c2, m2) && Extends(m2, m) && c2 != [] && [] !in c2
    requires l1 == Propagate(c2, Lowest(n, m2)) && a1 == m2[Lowest(n, m2) := true]
    requires Inv(n, l1, a1) && first == Run(scan, n, l1, a1) && first.0 != map[]
    ensures Branch(scan, n, m, c2, m2) == Run(scan, n, first.1, first.2).0
  {
  }

  /** `Branch` when the true copy fails and the false copy (list `l2`, dictionary `a2`)
      gives a non-empty first result: the false copy's second result. */
  lemma BranchTakesFalse(scan: Scan, n: int, m: map<int, bool>, c2: Formula, m2: map<int, bool>,
                         l1: Formula, a1: map<int, bool>, first: (map<int, bool>, Formula, map<int, bool>),
                         l2: Formula, a2: map<int, bool>, second: (map<int, bool>, Formula, map<int, bool>))
    requires Inv(n, c2, m2) && Extends(m2, m) && c2 != [] && [] !in c2
    requires l1 == Propagate(c2, Lowest(n, m2)) && a1 == m2[Lowest(n, m2) := true]
    requires Inv(n, l1, a1) && first == Run(scan, n, l1, a1) && first.0 == map[]
    requires l2 == Propagate(c2, -Lowest(n, m2)) && a2 == m2[Lowest(n, m2) := false]
    requires Inv(n, l2, a2) && second == Run(scan, n, l2, a2) && second.0 != map[]
    ensures Branch(scan, n, m, c2, m2) == Run(scan, n, second.1, second.2).0
  {
  }

  /** `Branch` when both copies fail: the simplified assignments `m2` themselves. */
  lemma BranchFails(scan: Scan, n: int, m: map<int, bool>, c2: Formula, m2: map<int, bool>,
                    l1: Formula, a1: map<int, bool>, first: (map<int, bool>, Formula, map<int, bool>),
                    l2: Formula, a2: map<int, bool>, second: (map<int, bool>, Formula, map<int, bool>))
    requires Inv(n, c2, m2) && Extends(m2, m) && c2 != [] && [] !in c2
    requires l1 == Propagate(c2, Lowest(n, m2)) && a1 == m2[Lowest(n, m2) := true]
    requires Inv(n, l1, a1) && first == Run(scan, n, l1, a1) && first.0 == map[]
    requires l2 == Propagate(c2, -Lowest(n, m2)) && a2 == m2[Lowest(n, m2) := false]
    requires Inv(n, l2, a2) && second == Run(scan, n, l2, a2) && second.0 == map[]
    ensures Branch(scan, n, m, c2, m2) == m2
  {
  }

  /** `Solve`'s conversion of the dictionary into `numVariables` booleans: entry `i - 1`
      is the value of variable `i`, true for a variable without one. */
  function InputOf(n: nat, m: map<int, bool>): (input: seq<bool>)
    ensures |input| == n
    ensures forall v :: 1 <= v <= n ==> input[v - 1] == (if v in m then m[v] else true)
  {
    seq(n, k => if k + 1 in m then m[k + 1] else true)
  }

  /** The input built from an assignment agrees with it. */
  lemma AgreesInputOf(n: nat, m: map<int, bool>)
    requires KeysIn(n, m)
    ensures Agrees(InputOf(n, m), m)
  {
    forall v | v in m
      ensures 1 <= v <= |InputOf(n, m)| && InputOf(n, m)[v - 1] == m[v]
    {
      assert 1 <= v <= n;
    }
  }

  /** When simplification alone empties the clause list, `DPLL` returns the simplified
      assignments and the input `Solve` builds from them satisfies the original clauses. */
  lemma SolvedBySimplification(scan: Scan, n: nat, cs: Formula)
    requires Inv(n, cs, map[])
    requires Simplify(scan, cs, map[]).0 == []
    ensures Run(scan, n, cs, map[]).0 == Simplify(scan, cs, map[]).1
    ensures Satisfies(cs, InputOf(n, Run(scan, n, cs, map[]).0))
  {
    SimplifyInv(scan, n, cs, map[]);
    var s := Simplify(scan, cs, map[]);
    assert Run(scan, n, cs, map[]) == (s.1, s.0, s.1);
    var m2 := s.1;
    var input := InputOf(n, m2);
    AgreesInputOf(n, m2);
    SimplifySatisfies(scan, n, cs, map[], input);
  }
}
