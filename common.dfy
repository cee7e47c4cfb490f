/** Types shared by the challenge kernel and the solvers: 32-bit integers, literals,
    clauses and formulas, what it means for an input to satisfy a formula, and the
    mutable collections (List, Dictionary, HashSet) the solvers update in place. */
module Common {

  datatype Option<T> = None | Some(value: T)

  datatype Result<T, E> = Ok(value: T) | Err(error: E)

  /** The exceptions the modelled C# code can raise. */
  datatype Error =
    | ArgumentException      // Difficulty's range checks, FastSat's conflict signal
    | FormatException        // int.Parse on a string that is not an integer
    | OverflowException      // int.Parse on an integer outside the int range
    | IndexOutOfRange        // fields[i] past the end of the array
    | EndOfStream            // BinaryReader reading past the end of its stream
    | ArgumentOutOfRange     // BinaryReader.ReadBytes with a negative count
    | Timeout                // the emission channel found the deadline passed

  const INT32_MIN: int := -0x8000_0000
  const INT32_MAX: int := 0x7fff_ffff
  const TWO_POW_32: int := 0x1_0000_0000

  /** A C# `int`. */
  type int32 = x: int | -0x8000_0000 <= x < 0x8000_0000

  /** C#'s unchecked `int` arithmetic: the value congruent to `x` modulo 2^32 that lies
      in the 32-bit two's complement range. */
  function Wrap32(x: int): (r: int32)
    ensures (x - r) % TWO_POW_32 == 0
    ensures INT32_MIN <= x <= INT32_MAX ==> r == x
  {
    (x + 0x8000_0000) % TWO_POW_32 - 0x8000_0000
  }

  /** Wrapping depends only on the residue modulo 2^32. */
  lemma Wrap32Shift(x: int, t: int)
    ensures Wrap32(x + TWO_POW_32 * t) == Wrap32(x)
  {
  }

  /** Wrapping an intermediate result of a multiplication does not change the wrapped
      product: C# may wrap after every step of a product. */
  lemma Wrap32Mul(a: int, b: int)
    ensures Wrap32(Wrap32(a) * b) == Wrap32(a * b)
  {
    var q := (a + 0x8000_0000) / TWO_POW_32;
    assert Wrap32(a) == a - TWO_POW_32 * q;
    assert Wrap32(a) * b == a * b + TWO_POW_32 * (-q * b);
    Wrap32Shift(a * b, -q * b);
  }

  function Abs(x: int): (r: nat)
    ensures r == x || r == -x
  {
    if x < 0 then -x else x
  }

  /** A literal is a nonzero integer: its magnitude names a variable (1-based), its sign
      the polarity. A clause is an ordered list of literals, a formula a list of clauses. */
  type Clause = seq<int>
  type Formula = seq<Clause>

  /** `l` names one of the variables `1..n`. */
  predicate InRange(n: int, l: int)
  {
    1 <= Abs(l) <= n
  }

  /** No variable occurs twice in the clause, in either polarity. */
  predicate DistinctVars(c: Clause)
  {
    forall i, j :: 0 <= i < j < |c| ==> Abs(c[i]) != Abs(c[j])
  }

  /** The shape every clause list handed to a solver has: each literal names one of the
      variables `1..n` and no clause mentions a variable twice. */
  predicate WellFormed(n: int, cs: Formula)
  {
    forall c :: c in cs ==> DistinctVars(c) && forall l :: l in c ==> InRange(n, l)
  }

  /** Literal `l` is true under `input` (entry `|l| - 1` holds the value of variable `|l|`). */
  predicate Holds(l: int, input: seq<bool>)
  {
    1 <= Abs(l) <= |input| && input[Abs(l) - 1] == (l > 0)
  }

  /** Every clause has a literal that is true under `input`. */
  predicate Satisfies(cs: Formula, input: seq<bool>)
  {
    forall c :: c in cs ==> exists l :: l in c && Holds(l, input)
  }

  /** The set of literals occurring in some clause. */
  function Literals(cs: Formula): set<int>
  {
    set c, l | c in cs && l in c :: l
  }

  /** The literals that occur while their negation occurs nowhere. */
  function PureLiterals(cs: Formula): set<int>
  {
    var lits := Literals(cs);
    set l | l in lits && NegationAbsent(lits, l)
  }

  predicate NegationAbsent(lits: set<int>, l: int)
  {
    -l !in lits
  }

  /** `c` contains a literal of `s`. */
  predicate Hits(c: Clause, s: set<int>)
  {
    exists l :: l in c && l in s
  }

  /** The clauses of `cs` that contain no literal of `s`, in their original order. */
  function Unhit(cs: Formula, s: set<int>): (r: Formula)
    ensures |r| <= |cs|
  {
    if cs == [] then []
    else if Hits(cs[0], s) then Unhit(cs[1..], s)
    else [cs[0]] + Unhit(cs[1..], s)
  }

  /** The clauses that survive are exactly those of `cs` that `s` does not hit. */
  lemma {:induction false} UnhitMembers(cs: Formula, s: set<int>)
    ensures forall c :: c in Unhit(cs, s) <==> c in cs && !Hits(c, s)
  {
    if cs != [] {
      UnhitMembers(cs[1..], s);
      assert forall c :: c in cs <==> c == cs[0] || c in cs[1..];
    }
  }

  /** Filtering clauses introduces no literal. */
  lemma LiteralsUnhit(cs: Formula, s: set<int>)
    ensures Literals(Unhit(cs, s)) <= Literals(cs)
  {
    UnhitMembers(cs, s);
  }

  lemma UnhitAppend(a: Formula, b: Formula, s: set<int>)
    ensures Unhit(a + b, s) == Unhit(a, s) + Unhit(b, s)
  {
    if a != [] {
      assert (a + b)[0] == a[0];
      assert (a + b)[1..] == a[1..] + b;
      UnhitAppend(a[1..], b, s);
      if !Hits(a[0], s) {
        assert Unhit(a + b, s) == [a[0]] + (Unhit(a[1..], s) + Unhit(b, s));
      }
    } else {
      assert a + b == b;
    }
  }

  /** A prefix one element longer. */
  lemma PrefixSnoc<T>(s: seq<T>, k: nat)
    requires k < |s|
    ensures s[..k + 1] == s[..k] + [s[k]]
  {
  }

  /** `Unhit` on a suffix, by its first clause. */
  lemma UnhitSuffix(cs: Formula, k: nat, s: set<int>)
    requires k < |cs|
    ensures Unhit(cs[k..], s) == (if Hits(cs[k], s) then [] else [cs[k]]) + Unhit(cs[k + 1..], s)
  {
    assert cs[k..][0] == cs[k];
    assert cs[k..][1..] == cs[k + 1..];
  }

  /** One step of a backward filtering pass: the clause at `k` is dropped from the
      list when it is hit, and the processed suffix grows by one. */
  lemma UnhitBackStep(cs: Formula, k: nat, s: set<int>)
    requires k < |cs|
    ensures var items := cs[..k + 1] + Unhit(cs[k + 1..], s);
      (if Hits(cs[k], s) then items[..k] + items[k + 1..] else items) == cs[..k] + Unhit(cs[k..], s)
  {
    UnhitSuffix(cs, k, s);
    PrefixSnoc(cs, k);
    var items := cs[..k + 1] + Unhit(cs[k + 1..], s);
    if Hits(cs[k], s) {
      assert items[..k] == cs[..k];
      assert items[k + 1..] == Unhit(cs[k + 1..], s);
    }
  }

  /** Removing or replacing the element that follows a prefix `a`. */
  lemma Splice<T>(a: seq<T>, x: T, b: seq<T>, y: T)
    ensures var items := a + ([x] + b);
      && |a| < |items| && items[|a|] == x
      && items[..|a|] + items[|a| + 1..] == a + b
      && items[|a| := y] == a + ([y] + b)
  {
    var items := a + ([x] + b);
    assert items[..|a|] == a;
    assert items[|a| + 1..] == b;
  }

  /** One step of a forward filtering pass over a snapshot `cs` of the list: the
      processed prefix is already filtered, and the clause at `k` sits at `position`,
      right after it in the live list `items`, where it is dropped when it is hit. */
  lemma UnhitForwardStep(cs: Formula, k: nat, s: set<int>, items: Formula, position: int)
    requires k < |cs|
    requires items == Unhit(cs[..k], s) + cs[k..] && position == |Unhit(cs[..k], s)|
    ensures 0 <= position < |items| && items[position] == cs[k]
    ensures Hits(cs[k], s) ==>
      && items[..position] + items[position + 1..] == Unhit(cs[..k + 1], s) + cs[k + 1..]
      && |Unhit(cs[..k + 1], s)| == position
    ensures !Hits(cs[k], s) ==>
      && items == Unhit(cs[..k + 1], s) + cs[k + 1..]
      && |Unhit(cs[..k + 1], s)| == position + 1
  {
    var done := Unhit(cs[..k], s);
    PrefixSnoc(cs, k);
    UnhitAppend(cs[..k], [cs[k]], s);
    assert Unhit([cs[k]], s) == if Hits(cs[k], s) then [] else [cs[k]] by {
      assert [cs[k]][1..] == [];
    }
    assert cs[k..] == [cs[k]] + cs[k + 1..];
    Splice(done, cs[k], cs[k + 1..], cs[k]);
  }

  /** The position of the first occurrence of `x`. */
  function IndexOf(c: Clause, x: int): (k: nat)
    requires x in c
    ensures k < |c| && c[k] == x
    ensures forall j :: 0 <= j < k ==> c[j] != x
  {
    if c[0] == x then 0 else 1 + IndexOf(c[1..], x)
  }

  /** `List<int>.Remove(x)`: the clause without the first occurrence of `x`, if any. */
  function RemoveFirst(c: Clause, x: int): (r: Clause)
  {
    if x in c then c[..IndexOf(c, x)] + c[IndexOf(c, x) + 1..] else c
  }

  /** Removing the first `x` shifts the tail of the clause down by one. */
  lemma RemoveFirstShape(c: Clause, x: int)
    requires x in c
    ensures var k := IndexOf(c, x); var r := RemoveFirst(c, x);
      |r| == |c| - 1 &&
      (forall j :: 0 <= j < k ==> r[j] == c[j]) &&
      (forall j :: k <= j < |r| ==> r[j] == c[j + 1])
  {
  }

  /** Removing the first `x` keeps exactly the other literals. */
  lemma RemoveFirstMembers(c: Clause, x: int)
    requires x in c
    ensures forall y :: y in RemoveFirst(c, x) ==> y in c
    ensures forall y :: y in c && y != x ==> y in RemoveFirst(c, x)
  {
    var k := IndexOf(c, x);
    var r := RemoveFirst(c, x);
    RemoveFirstShape(c, x);
    forall y | y in r
      ensures y in c
    {
      var j :| 0 <= j < |r| && r[j] == y;
      if j < k { assert c[j] == y; } else { assert c[j + 1] == y; }
    }
    forall y | y in c && y != x
      ensures y in r
    {
      var j :| 0 <= j < |c| && c[j] == y;
      if j < k { assert r[j] == y; } else { assert r[j - 1] == y; }
    }
  }

  /** Removing the first `x` from a clause with distinct variables keeps them distinct. */
  lemma RemoveFirstDistinct(c: Clause, x: int)
    requires x in c && DistinctVars(c)
    ensures DistinctVars(RemoveFirst(c, x))
  {
    var k := IndexOf(c, x);
    var r := RemoveFirst(c, x);
    RemoveFirstShape(c, x);
    forall i, j | 0 <= i < j < |r|
      ensures Abs(r[i]) != Abs(r[j])
    {
      var i' := if i < k then i else i + 1;
      var j' := if j < k then j else j + 1;
      assert r[i] == c[i'] && r[j] == c[j'];
    }
  }

  /** In a clause with distinct variables, removing the first `x` removes every `x`. */
  lemma RemoveFirstGone(c: Clause, x: int)
    requires x in c && DistinctVars(c)
    ensures x !in RemoveFirst(c, x)
  {
    var k := IndexOf(c, x);
    var r := RemoveFirst(c, x);
    RemoveFirstShape(c, x);
    forall j | 0 <= j < |r|
      ensures r[j] != x
    {
      if j >= k {
        assert Abs(c[k]) != Abs(c[j + 1]);
      }
    }
  }

  /** A `List<List<int>>` that the solvers update in place. The inner lists are values:
      no two outer lists ever share an inner list (every branch works on a deep copy). */
  class ClauseList {
    var items: Formula

    constructor (clauses: Formula)
      ensures items == clauses
    {
      items := clauses;
    }

    /** `List.RemoveAt(index)`. */
    method RemoveAt(index: nat)
      requires index < |items|
      modifies this
      ensures items == old(items[..index] + items[index + 1..])
    {
      items := items[..index] + items[index + 1..];
    }

    /** `clauses[index].Remove(x)`: the inner list at `index` loses its first `x`. */
    method RemoveLiteral(index: nat, x: int)
      requires index < |items|
      modifies this
      ensures items == old(items[index := RemoveFirst(items[index], x)])
    {
      items := items[index := RemoveFirst(items[index], x)];
    }
  }

  /** A `Dictionary<int, bool>` from variable to value. */
  class AssignmentMap {
    var entries: map<int, bool>

    constructor (m: map<int, bool>)
      ensures entries == m
    {
      entries := m;
    }

    /** `Dictionary.Add`, which throws when the key is present; every call site checks
        `ContainsKey` first. */
    method Add(key: int, value: bool)
      requires key !in entries
      modifies this
      ensures entries == old(entries)[key := value]
    {
      entries := entries[key := value];
    }
  }

  /** A `HashSet<int>` of literals. */
  class LiteralSet {
    var elems: set<int>

    constructor (s: set<int>)
      ensures elems == s
    {
      elems := s;
    }

    /** `HashSet.Add`, whose result the callers ignore. */
    method Add(x: int)
      modifies this
      ensures elems == old(elems) + {x}
    {
      elems := elems + {x};
    }

    /** `HashSet.Remove`: reports whether the element was present. */
    method Remove(x: int) returns (removed: bool)
      modifies this
      ensures removed == (x in old(elems))
      ensures elems == old(elems) - {x}
    {
      removed := x in elems;
      elems := elems - {x};
    }
  }
}
