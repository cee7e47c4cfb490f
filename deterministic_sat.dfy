/** DeterministicSATSolver.cs: a greedy loop. Each round counts how often every variable
    occurs in the remaining clauses, picks the most frequent one (lowest number on ties),
    gives it the value of its majority polarity, removes the clauses that value satisfies,
    emits one identifier and stops as soon as the callback accepts the input. */
module DeterministicSat {
  import opened Common
  import Identifier

  // ---- The flattened clause list ----

  /** The flattened clause list: the literals of all clauses, clause after clause. */
  function Flatten(cs: Formula): (r: seq<int>)
    ensures forall x :: x in r ==> x in Literals(cs)
  {
    if cs == [] then []
    else
      assert forall c :: c in cs[1..] ==> c in cs;
      cs[0] + Flatten(cs[1..])
  }

  /** Every clause has `L` literals. */
  predicate Uniform(cs: Formula, L: int)
  {
    forall c :: c in cs ==> |c| == L
  }

  lemma {:induction false} FlattenAppend(a: Formula, b: Formula)
    ensures Flatten(a + b) == Flatten(a) + Flatten(b)
  {
    if a == [] {
      assert a + b == b;
    } else {
      assert (a + b)[0] == a[0];
      assert (a + b)[1..] == a[1..] + b;
      FlattenAppend(a[1..], b);
    }
  }

  /** The position in the flattened list of the first literal of clause `j` when every
      clause has `L` literals, that is `j * L`, built up by addition. */
  function Start(L: nat, j: nat): nat
  {
    if j == 0 then 0 else Start(L, j - 1) + L
  }

  lemma {:induction false} FlattenLength(cs: Formula, L: nat)
    requires Uniform(cs, L)
    ensures |Flatten(cs)| == Start(L, |cs|)
  {
    if cs != [] {
      assert cs[0] in cs;
      FlattenLength(cs[1..], L);
    }
  }

  /** With clauses of uniform length `L`, position `Start(L, j) + p` of the flattened list
      is literal `p` of clause `j`. */
  lemma {:induction false} FlattenAt(cs: Formula, L: nat, j: nat, p: nat)
    requires Uniform(cs, L) && j < |cs| && p < L
    ensures Start(L, j) + p < |Flatten(cs)| && Flatten(cs)[Start(L, j) + p] == cs[j][p]
  {
    assert cs[0] in cs;
    if j > 0 {
      FlattenAt(cs[1..], L, j - 1, p);
    }
  }

  /** The flattened list holds exactly the literals of the clauses. */
  lemma {:induction false} FlattenLiterals(cs: Formula)
    ensures forall l :: l in Flatten(cs) <==> l in Literals(cs)
  {
    if cs != [] {
      FlattenLiterals(cs[1..]);
      forall l
        ensures l in Literals(cs) <==> l in cs[0] || l in Literals(cs[1..])
      {
        if l in Literals(cs) {
          var c :| c in cs && l in c;
          if c != cs[0] {
            assert c in cs[1..];
          }
        }
        if l in Literals(cs[1..]) {
          var c :| c in cs[1..] && l in c;
          assert c in cs;
        }
        if l in cs[0] {
          assert cs[0] in cs;
        }
      }
    }
  }

  // ---- Integer division by the clause length ----

  lemma {:induction false} StartMono(L: nat, a: nat, b: nat)
    requires a < b
    ensures Start(L, a) + L <= Start(L, b)
    decreases b
  {
    if a + 1 < b {
      StartMono(L, a, b - 1);
    }
  }

  lemma {:induction false} StartIsProduct(L: nat, j: nat)
    ensures Start(L, j) == j * L
  {
    if j > 0 {
      StartIsProduct(L, j - 1);
      assert j * L == (j - 1) * L + L;
    }
  }

  lemma DivMod(q: nat, L: nat)
    requires 1 <= L
    ensures q == (q / L) * L + q % L && 0 <= q % L < L
  {
  }

  /** Every position lies in clause `position / L`, at offset `position % L`. */
  lemma InClause(L: nat, q: nat)
    requires 1 <= L
    ensures 0 <= q / L && q == Start(L, q / L) + q % L && q % L < L
  {
    DivMod(q, L);
    StartIsProduct(L, q / L);
  }

  /** `index / clauseLength` names the clause and `index % clauseLength` the offset in it. */
  lemma ClauseOf(L: nat, j: nat, p: nat)
    requires p < L
    ensures (Start(L, j) + p) / L == j && (Start(L, j) + p) % L == p
  {
    var q := Start(L, j) + p;
    InClause(L, q);
    var j' := q / L;
    if j' < j {
      StartMono(L, j', j);
    } else if j < j' {
      StartMono(L, j, j');
    }
  }

  /** A position before the start of clause `m` lies in an earlier clause. */
  lemma DivBelow(L: nat, q: nat, m: nat)
    requires 1 <= L && q < Start(L, m)
    ensures q / L < m
  {
    InClause(L, q);
    if q / L > m {
      StartMono(L, m, q / L);
    }
  }

  // ---- The counters ----

  /** `CounterIndex[v]`: the positions of the literals of variable `v` (either polarity)
      in the flattened list. */
  function Occurrences(flat: seq<int>, v: int): (r: seq<nat>)
    ensures |r| <= |flat|
    ensures forall x :: x in r ==> x < |flat|
  {
    if flat == [] then []
    else Occurrences(flat[..|flat| - 1], v) + (if Abs(flat[|flat| - 1]) == v then [|flat| - 1] else [])
  }

  /** `Counter[v]`. */
  function Count(flat: seq<int>, v: int): (c: nat)
    ensures c <= |flat|
    ensures c > 0 <==> exists q :: 0 <= q < |flat| && Abs(flat[q]) == v
  {
    OccurrencesExact(flat, v);
    var o := Occurrences(flat, v);
    assert |o| > 0 ==> o[0] < |flat| && Abs(flat[o[0]]) == v;
    |o|
  }

  /** The number of occurrences of literal `x`; `CounterNegative[v]` is `LiteralCount(flat, -v)`. */
  function LiteralCount(flat: seq<int>, x: int): nat
  {
    if flat == [] then 0
    else LiteralCount(flat[..|flat| - 1], x) + (if flat[|flat| - 1] == x then 1 else 0)
  }

  /** `CounterIndex[v]` lists, in increasing order, exactly the positions holding `v` or `-v`. */
  lemma {:induction false} OccurrencesExact(flat: seq<int>, v: int)
    ensures forall i :: 0 <= i < |Occurrences(flat, v)| ==>
      Occurrences(flat, v)[i] < |flat| && Abs(flat[Occurrences(flat, v)[i]]) == v
    ensures forall a, b :: 0 <= a < b < |Occurrences(flat, v)| ==> Occurrences(flat, v)[a] < Occurrences(flat, v)[b]
    ensures forall q :: 0 <= q < |flat| && Abs(flat[q]) == v ==> q in Occurrences(flat, v)
  {
    if flat != [] {
      var init := flat[..|flat| - 1];
      OccurrencesExact(init, v);
      var occ, before := Occurrences(flat, v), Occurrences(init, v);
      forall i | 0 <= i < |before|
        ensures occ[i] == before[i] && flat[before[i]] == init[before[i]]
      {
      }
      assert forall q :: 0 <= q < |init| ==> init[q] == flat[q];
    }
  }

  /** `Counter[v]` is the number of positive plus the number of negative occurrences. */
  lemma {:induction false} CountSplit(flat: seq<int>, v: int)
    requires 1 <= v
    ensures Count(flat, v) == LiteralCount(flat, v) + LiteralCount(flat, -v)
  {
    if flat != [] {
      CountSplit(flat[..|flat| - 1], v);
    }
  }

  /** A literal is counted iff it occurs. */
  lemma {:induction false} LiteralCountPresent(flat: seq<int>, x: int)
    ensures LiteralCount(flat, x) > 0 <==> x in flat
  {
    if flat != [] {
      var init := flat[..|flat| - 1];
      LiteralCountPresent(init, x);
      assert flat == init + [flat[|flat| - 1]];
    }
  }

  /** The counting pass of one round (the `foreach (var num in flatClauses)` loop): the
      three dictionaries, keyed by the variables `1..n`. */
  method CountOccurrences(flat: seq<int>, n: int)
    returns (counter: map<int, int>, counterNegative: map<int, int>, counterIndex: map<int, seq<nat>>)
    requires 0 <= n && forall i :: 0 <= i < |flat| ==> InRange(n, flat[i])
    ensures forall v :: v in counter <==> 1 <= v <= n
    ensures forall v :: 1 <= v <= n ==>
      && v in counterNegative && v in counterIndex
      && counter[v] == Count(flat, v)
      && counterNegative[v] == LiteralCount(flat, -v)
      && counterIndex[v] == Occurrences(flat, v)
  {
    counter, counterNegative, counterIndex := map[], map[], map[];
    for i := 1 to n + 1
      invariant forall v :: v in counter <==> 1 <= v < i
      invariant forall v :: 1 <= v < i ==>
        v in counterNegative && v in counterIndex && counter[v] == 0 && counterNegative[v] == 0 && counterIndex[v] == []
    {
      counter := counter[i := 0];
      counterNegative := counterNegative[i := 0];
      counterIndex := counterIndex[i := []];
    }
    var index := 0;
    while index < |flat|
      invariant index <= |flat|
      invariant forall v :: v in counter <==> 1 <= v <= n
      invariant forall v :: 1 <= v <= n ==>
        && v in counterNegative && v in counterIndex
        && counter[v] == Count(flat[..index], v)
        && counterNegative[v] == LiteralCount(flat[..index], -v)
        && counterIndex[v] == Occurrences(flat[..index], v)
    {
      var num := flat[index];
      assert flat[..index + 1][..index] == flat[..index];
      var a := Abs(num);
      counter := counter[a := counter[a] + 1];
      counterIndex := counterIndex[a := counterIndex[a] + [index]];
      if num < 0 {
        counterNegative := counterNegative[a := counterNegative[a] + 1];
      }
      index := index + 1;
    }
    assert flat[..index] == flat;
  }

  // ---- The chosen variable ----

  /** `sortedCounter.First().Key` over `1..k`: the stable descending sort of the counters,
      whose keys were inserted as `1..k`, puts first the lowest variable with the largest count. */
  function FirstMax(flat: seq<int>, k: int): (best: int)
    requires 1 <= k
    ensures 1 <= best <= k
    decreases k
  {
    if k == 1 then 1
    else
      var b := FirstMax(flat, k - 1);
      if Count(flat, k) > Count(flat, b) then k else b
  }

  /** `best` has the largest count among `1..k`, and every lower variable a smaller one. */
  predicate IsFirstMax(flat: seq<int>, k: int, best: int)
  {
    && 1 <= best <= k
    && (forall v :: 1 <= v <= k ==> Count(flat, v) <= Count(flat, best))
    && (forall v :: 1 <= v < best ==> Count(flat, v) < Count(flat, best))
  }

  lemma {:induction false} FirstMaxIsFirstMaximum(flat: seq<int>, k: int)
    requires 1 <= k
    ensures IsFirstMax(flat, k, FirstMax(flat, k))
    decreases k
  {
    if k > 1 {
      FirstMaxIsFirstMaximum(flat, k - 1);
    }
  }

  /** The maximum with ties to the lowest variable is unique. */
  lemma FirstMaxUnique(flat: seq<int>, k: int, best: int)
    requires 1 <= k && IsFirstMax(flat, k, best)
    ensures best == FirstMax(flat, k)
  {
    FirstMaxIsFirstMaximum(flat, k);
  }

  /** The argmax over the counter dictionary, scanning the keys in insertion order and
      replacing the candidate only on a strictly larger count, which is what taking the
      first entry of the stable descending sort amounts to. */
  method MostFrequent(counter: map<int, int>, n: int) returns (best: int)
    requires 1 <= n && forall v :: 1 <= v <= n ==> v in counter
    ensures 1 <= best <= n
    ensures forall v :: 1 <= v <= n ==> counter[v] <= counter[best]
    ensures forall v :: 1 <= v < best ==> counter[v] < counter[best]
  {
    best := 1;
    for i := 2 to n + 1
      invariant 1 <= best < i
      invariant forall v :: 1 <= v < i ==> counter[v] <= counter[best]
      invariant forall v :: 1 <= v < best ==> counter[v] < counter[best]
    {
      if counter[i] > counter[best] {
        best := i;
      }
    }
  }

  // ---- One round ----

  /** The literal that gives variable `v` the value `value`. */
  function Literal(v: int, value: bool): int
  {
    if value then v else -v
  }

  /** Every clause handed to this solver has the same nonzero length and pairwise
      distinct variables among `1..n`, as every generated challenge does. */
  predicate Shaped(n: int, cs: Formula)
  {
    && WellFormed(n, cs)
    && forall c :: c in cs ==> 1 <= |c| == |cs[0]|
  }

  /** The round's choice: the most frequent variable and its majority value
      (`(double)CounterNegative / Counter < 0.5`, which for these counts is `2 * neg < count`). */
  function Decide(n: int, cs: Formula): (r: (int, bool))
    requires 1 <= n
    ensures 1 <= r.0 <= n
  {
    var flat := Flatten(cs);
    var v := FirstMax(flat, n);
    (v, 2 * LiteralCount(flat, -v) < Count(flat, v))
  }

  /** The chosen value is the majority polarity: true iff the variable occurs more often
      positively than negatively. */
  lemma DecideMajority(n: int, cs: Formula)
    requires 1 <= n
    ensures var flat := Flatten(cs); var v := Decide(n, cs).0;
      && IsFirstMax(flat, n, v)
      && (Decide(n, cs).1 <==> LiteralCount(flat, -v) < LiteralCount(flat, v))
  {
    var flat := Flatten(cs);
    FirstMaxIsFirstMaximum(flat, n);
    CountSplit(flat, FirstMax(flat, n));
  }

  lemma ShapedUniform(n: int, cs: Formula)
    requires Shaped(n, cs) && cs != []
    ensures 1 <= |cs[0]| && Uniform(cs, |cs[0]|)
    ensures forall i :: 0 <= i < |Flatten(cs)| ==> InRange(n, Flatten(cs)[i])
    ensures 1 <= n
  {
    assert cs[0] in cs;
    FlattenLiterals(cs);
    forall i | 0 <= i < |Flatten(cs)|
      ensures InRange(n, Flatten(cs)[i])
    {
      var l := Flatten(cs)[i];
      assert l in Literals(cs);
      var c :| c in cs && l in c;
    }
    assert cs[0][0] in cs[0];
  }

  /** A clause hit by `s` is dropped, so the filtered list is strictly shorter. */
  lemma UnhitDrops(cs: Formula, s: set<int>, c: nat)
    requires c < |cs| && Hits(cs[c], s)
    ensures |Unhit(cs, s)| < |cs|
  {
    assert cs == cs[..c] + cs[c..];
    UnhitAppend(cs[..c], cs[c..], s);
    UnhitSuffix(cs, c, s);
  }

  /** Some variable occurs, so the most frequent one does. */
  lemma ChosenCounted(n: int, cs: Formula)
    requires Shaped(n, cs) && cs != []
    ensures 1 <= n && Count(Flatten(cs), Decide(n, cs).0) > 0
  {
    ShapedUniform(n, cs);
    var flat := Flatten(cs);
    DecideMajority(n, cs);
    FlattenLiterals(cs);
    assert cs[0][0] in Literals(cs) by {
      assert cs[0] in cs && cs[0][0] in cs[0];
    }
    var q :| 0 <= q < |flat| && flat[q] == cs[0][0];
    var w := Abs(cs[0][0]);
    assert InRange(n, cs[0][0]);
    OccurrencesExact(flat, w);
    assert q in Occurrences(flat, w);
    assert Count(flat, w) > 0;
  }

  /** The chosen literal occurs: its polarity is the majority one of a variable that occurs. */
  lemma ChosenOccurs(n: int, cs: Formula)
    requires Shaped(n, cs) && cs != []
    ensures 1 <= n && Literal(Decide(n, cs).0, Decide(n, cs).1) in Literals(cs)
  {
    ChosenCounted(n, cs);
    var flat := Flatten(cs);
    var (v, value) := Decide(n, cs);
    DecideMajority(n, cs);
    CountSplit(flat, v);
    assert LiteralCount(flat, Literal(v, value)) > 0;
    LiteralCountPresent(flat, Literal(v, value));
    FlattenLiterals(cs);
  }

  /** Each round removes at least one clause, and what remains keeps the shape. */
  lemma RoundProgress(n: int, cs: Formula)
    requires Shaped(n, cs) && cs != []
    ensures 1 <= n
    ensures var (v, value) := Decide(n, cs);
      var rest := Unhit(cs, {Literal(v, value)});
      && 1 <= v <= n && |rest| < |cs| && Shaped(n, rest)
  {
    ChosenOccurs(n, cs);
    DecideMajority(n, cs);
    var (v, value) := Decide(n, cs);
    var lit := Literal(v, value);
    var c :| c in cs && lit in c;
    var j :| 0 <= j < |cs| && cs[j] == c;
    UnhitDrops(cs, {lit}, j);
    UnhitMembers(cs, {lit});
    var rest := Unhit(cs, {lit});
    if rest != [] {
      assert rest[0] in rest;
    }
  }

  // ---- The removal pass ----

  /** The list part-way through the backward removal pass: the clauses from `B` on have
      been filtered, the ones before `B` not yet. */
  function Pending(cs: Formula, B: nat, lit: int): Formula
    requires B <= |cs|
  {
    cs[..B] + Unhit(cs[B..], {lit})
  }

  /** When no occurrence of variable `v` lies in clauses `lo..B-1`, none of them is hit. */
  lemma NoHitBetween(cs: Formula, L: nat, v: int, lit: int, lo: nat, B: nat)
    requires Uniform(cs, L) && Abs(lit) == v && lo <= B <= |cs|
    requires forall i :: 0 <= i < |Occurrences(Flatten(cs), v)| ==>
      Occurrences(Flatten(cs), v)[i] < Start(L, lo) || Start(L, B) <= Occurrences(Flatten(cs), v)[i]
    ensures forall j :: lo <= j < B ==> !Hits(cs[j], {lit})
  {
    var occ := Occurrences(Flatten(cs), v);
    OccurrencesExact(Flatten(cs), v);
    forall j | lo <= j < B
      ensures !Hits(cs[j], {lit})
    {
      if Hits(cs[j], {lit}) {
        var x :| x in cs[j] && x in {lit};
        var q :| 0 <= q < |cs[j]| && cs[j][q] == lit;
        assert cs[j] in cs;
        FlattenAt(cs, L, j, q);
        assert Start(L, j) + q in occ;
        var i :| 0 <= i < |occ| && occ[i] == Start(L, j) + q;
        if lo < j {
          StartMono(L, lo, j);
        }
        StartMono(L, j, B);
        assert false;
      }
    }
  }

  /** Skipping clauses `c+1..B-1`, which the literal does not hit. */
  lemma {:induction false} PendingSkip(cs: Formula, c: nat, B: nat, lit: int)
    requires c < B <= |cs|
    requires forall j :: c < j < B ==> !Hits(cs[j], {lit})
    ensures Pending(cs, B, lit) == Pending(cs, c + 1, lit)
    decreases B
  {
    if B > c + 1 {
      UnhitSuffix(cs, B - 1, {lit});
      PrefixSnoc(cs, B - 1);
      assert Pending(cs, B, lit) == Pending(cs, B - 1, lit);
      PendingSkip(cs, c, B - 1, lit);
    }
  }

  /** Two occurrences of one variable in the same clause are the same position. */
  lemma SameClause(cs: Formula, L: nat, v: int, a: nat, b: nat)
    requires 1 <= L && Uniform(cs, L) && forall c :: c in cs ==> DistinctVars(c)
    requires a < |Flatten(cs)| && b < |Flatten(cs)|
    requires Abs(Flatten(cs)[a]) == v && Abs(Flatten(cs)[b]) == v && a / L == b / L
    ensures a == b
  {
    FlattenLength(cs, L);
    DivBelow(L, a, |cs|);
    InClause(L, a);
    InClause(L, b);
    var j, pa, pb := a / L, a % L, b % L;
    FlattenAt(cs, L, j, pa);
    FlattenAt(cs, L, j, pb);
    assert cs[j] in cs;
    if pa != pb {
      assert false;
    }
  }

  /** Where the pending list still agrees with the original one: before clause `B`. */
  lemma PendingAt(cs: Formula, L: nat, B: nat, lit: int, j: nat, p: nat)
    requires Uniform(cs, L) && j < B <= |cs| && p < L
    ensures Start(L, j) + p < |Flatten(Pending(cs, B, lit))|
    ensures Flatten(Pending(cs, B, lit))[Start(L, j) + p] == cs[j][p]
  {
    FlattenAppend(cs[..B], Unhit(cs[B..], {lit}));
    assert Uniform(cs[..B], L) by {
      forall x | x in cs[..B] ensures |x| == L { assert x in cs; }
    }
    FlattenAt(cs[..B], L, j, p);
  }

  /** The occurrences before `occ[k-1]` lie in clauses before its clause `c`. */
  lemma EarlierClauses(cs: Formula, L: nat, v: int, k: nat)
    requires 1 <= L && Uniform(cs, L) && forall c :: c in cs ==> DistinctVars(c)
    requires 0 < k <= |Occurrences(Flatten(cs), v)|
    ensures var occ := Occurrences(Flatten(cs), v);
      forall i :: 0 <= i < k - 1 ==> occ[i] < Start(L, occ[k - 1] / L)
  {
    var flat := Flatten(cs);
    var occ := Occurrences(flat, v);
    OccurrencesExact(flat, v);
    var idx := occ[k - 1];
    InClause(L, idx);
    var c := idx / L;
    forall i | 0 <= i < k - 1
      ensures occ[i] < Start(L, c)
    {
      if occ[i] >= Start(L, c) {
        assert occ[i] < idx;
        ClauseOf(L, c, occ[i] - Start(L, c));
        SameClause(cs, L, v, occ[i], idx);
      }
    }
  }

  /** Clause `c` is hit by `lit` exactly when its literal at offset `p`, which belongs to
      the variable of `lit`, is `lit` itself. */
  lemma HitAt(c: Clause, p: nat, lit: int)
    requires DistinctVars(c) && p < |c| && Abs(c[p]) == Abs(lit)
    ensures Hits(c, {lit}) <==> c[p] == lit
  {
    if c[p] != lit && lit in c {
      var q :| 0 <= q < |c| && c[q] == lit;
      assert false;
    }
  }

  /** One step of the backward pass: the occurrence `occ[k-1]` lies in clause
      `c = occ[k-1] / L`, before every clause already handled; re-reading the flattened
      list at that position still finds the original literal; removing clause `c` when
      that literal is `lit` (and keeping it otherwise) extends the filtered part to `c`. */
  lemma RemovalStep(cs: Formula, L: nat, v: int, lit: int, k: nat, B: nat, idx: nat, c: nat)
    requires 1 <= L && Uniform(cs, L) && forall c :: c in cs ==> DistinctVars(c)
    requires Abs(lit) == v && B <= |cs|
    requires 0 < k <= |Occurrences(Flatten(cs), v)|
    requires forall i :: 0 <= i < k ==> Occurrences(Flatten(cs), v)[i] < Start(L, B)
    requires forall i :: k <= i < |Occurrences(Flatten(cs), v)| ==> Start(L, B) <= Occurrences(Flatten(cs), v)[i]
    requires idx == Occurrences(Flatten(cs), v)[k - 1] && c == idx / L
    ensures c < B && idx < |Flatten(Pending(cs, B, lit))|
    ensures Abs(Flatten(Pending(cs, B, lit))[idx]) == v
    ensures Flatten(Pending(cs, B, lit))[idx] == lit ==>
      Pending(cs, B, lit)[..c] + Pending(cs, B, lit)[c + 1..] == Pending(cs, c, lit)
    ensures Flatten(Pending(cs, B, lit))[idx] != lit ==> Pending(cs, B, lit) == Pending(cs, c, lit)
    ensures forall i :: 0 <= i < k - 1 ==> Occurrences(Flatten(cs), v)[i] < Start(L, c)
    ensures forall i :: k - 1 <= i < |Occurrences(Flatten(cs), v)| ==> Start(L, c) <= Occurrences(Flatten(cs), v)[i]
  {
    RemovalOrder(cs, L, v, k, B, idx, c);
    var p := idx % L;
    PendingAt(cs, L, B, lit, c, p);
    FlattenAt(cs, L, c, p);
    assert Flatten(Pending(cs, B, lit))[idx] == cs[c][p] == Flatten(cs)[idx];
    OccurrencesExact(Flatten(cs), v);
    NoHitBetween(cs, L, v, lit, c + 1, B);
    assert cs[c] in cs;
    PendingRemove(cs, B, c, p, lit);
  }

  /** The position `idx = occ[k-1]` lies in clause `c = idx / L` at offset `idx % L`,
      before clause `B`; the earlier occurrences lie before clause `c`, the later ones
      from clause `c` on, and none lies in clauses `c+1..B-1`. */
  lemma RemovalOrder(cs: Formula, L: nat, v: int, k: nat, B: nat, idx: nat, c: nat)
    requires 1 <= L && Uniform(cs, L) && forall c :: c in cs ==> DistinctVars(c)
    requires 0 < k <= |Occurrences(Flatten(cs), v)|
    requires forall i :: 0 <= i < k ==> Occurrences(Flatten(cs), v)[i] < Start(L, B)
    requires forall i :: k <= i < |Occurrences(Flatten(cs), v)| ==> Start(L, B) <= Occurrences(Flatten(cs), v)[i]
    requires idx == Occurrences(Flatten(cs), v)[k - 1] && c == idx / L
    ensures c < B && idx == Start(L, c) + idx % L && idx % L < L
    ensures forall i :: 0 <= i < k - 1 ==> Occurrences(Flatten(cs), v)[i] < Start(L, c)
    ensures forall i :: k - 1 <= i < |Occurrences(Flatten(cs), v)| ==> Start(L, c) <= Occurrences(Flatten(cs), v)[i]
    ensures forall i :: 0 <= i < |Occurrences(Flatten(cs), v)| ==>
      Occurrences(Flatten(cs), v)[i] < Start(L, c + 1) || Start(L, B) <= Occurrences(Flatten(cs), v)[i]
  {
    var occ := Occurrences(Flatten(cs), v);
    DivBelow(L, idx, B);
    InClause(L, idx);
    EarlierClauses(cs, L, v, k);
    StartMono(L, c, B);
    forall i | k - 1 <= i < |occ|
      ensures Start(L, c) <= occ[i]
    {
      if i >= k {
        assert Start(L, c) <= Start(L, B) <= occ[i];
      }
    }
    assert Start(L, c + 1) == Start(L, c) + L;
    forall i | 0 <= i < |occ|
      ensures occ[i] < Start(L, c + 1) || Start(L, B) <= occ[i]
    {
      if i < k - 1 {
        assert occ[i] < Start(L, c);
      }
    }
  }

  /** Removing clause `c`, or keeping it, according to whether its literal at offset `p`
      (of the variable of `lit`) is `lit`; clauses `c+1..B-1` are not hit. */
  lemma PendingRemove(cs: Formula, B: nat, c: nat, p: nat, lit: int)
    requires c < B <= |cs| && p < |cs[c]| && DistinctVars(cs[c]) && Abs(cs[c][p]) == Abs(lit)
    requires forall j :: c < j < B ==> !Hits(cs[j], {lit})
    ensures cs[c][p] == lit ==> Pending(cs, B, lit)[..c] + Pending(cs, B, lit)[c + 1..] == Pending(cs, c, lit)
    ensures cs[c][p] != lit ==> Pending(cs, B, lit) == Pending(cs, c, lit)
  {
    PendingSkip(cs, c, B, lit);
    UnhitBackStep(cs, c, {lit});
    HitAt(cs[c], p, lit);
  }

  /** The backward removal pass, `foreach (idx in CounterIndex[best].Reverse())`: each
      index is mapped to its clause by `idx / clauseLength`, the literal at that index of
      the (lazily re-flattened, already shortened) list is read again, and the clause is
      removed when that literal agrees with the new value. The pass removes exactly the
      clauses containing the chosen literal and keeps the others in order. */
  method RemoveSatisfied(clauses: ClauseList, occurrences: seq<nat>, clauseLength: int, inputValue: bool, ghost v: int)
    requires 1 <= v && 1 <= clauseLength && Uniform(clauses.items, clauseLength)
    requires forall c :: c in clauses.items ==> DistinctVars(c)
    requires occurrences == Occurrences(Flatten(clauses.items), v)
    modifies clauses
    ensures clauses.items == Unhit(old(clauses.items), {Literal(v, inputValue)})
  {
    ghost var cs := clauses.items;
    ghost var lit := Literal(v, inputValue);
    ghost var B: nat := |cs|;
    OccurrencesExact(Flatten(cs), v);
    FlattenLength(cs, clauseLength);
    assert cs[..B] == cs && cs[B..] == [];
    var k := |occurrences|;
    while k > 0
      invariant 0 <= k <= |occurrences| && B <= |cs|
      invariant clauses.items == Pending(cs, B, lit)
      invariant forall i :: 0 <= i < k ==> occurrences[i] < Start(clauseLength, B)
      invariant forall i :: k <= i < |occurrences| ==> Start(clauseLength, B) <= occurrences[i]
    {
      var maxOccurValueIdx := occurrences[k - 1];
      var clauseIdx := maxOccurValueIdx / clauseLength;
      InClause(clauseLength, maxOccurValueIdx);
      assert 0 <= clauseIdx;
      RemovalStep(cs, clauseLength, v, lit, k, B, maxOccurValueIdx, clauseIdx);
      var literal := Flatten(clauses.items)[maxOccurValueIdx];
      assert (inputValue && literal > 0) || (!inputValue && literal < 0) <==> literal == lit;
      if (inputValue && literal > 0) || (!inputValue && literal < 0) {
        clauses.RemoveAt(clauseIdx);
      }
      B := clauseIdx;
      k := k - 1;
    }
    NoHitBetween(cs, clauseLength, v, lit, 0, B);
    UnhitKeepsAll(cs[..B], {lit});
    assert cs == cs[..B] + cs[B..];
    UnhitAppend(cs[..B], cs[B..], {lit});
  }

  /** Filtering by a set that hits no clause changes nothing. */
  lemma {:induction false} UnhitKeepsAll(cs: Formula, s: set<int>)
    requires forall j :: 0 <= j < |cs| ==> !Hits(cs[j], s)
    ensures Unhit(cs, s) == cs
  {
    if cs != [] {
      UnhitKeepsAll(cs[1..], s);
    }
  }

  // ---- The solver ----

  /** The rounds of `Solve` from the remaining clauses `cs` and the current `input`: the
      list returned (empty when the clauses run out first) and the identifiers emitted. */
  function Run(n: int, cs: Formula, input: seq<bool>, accept: seq<bool> -> bool): (r: (seq<bool>, seq<int32>))
    requires Shaped(n, cs) && |input| == n
    ensures r.0 == [] || (|r.0| == n && accept(r.0))
    decreases |cs|
  {
    if cs == [] then ([], [])
    else
      RoundProgress(n, cs);
      var (v, value) := Decide(n, cs);
      var next := input[v - 1 := value];
      var e := Wrap32(Identifier.TrueIndexProduct(next));
      if accept(next) then (next, [e])
      else
        var r := Run(n, Unhit(cs, {Literal(v, value)}), next, accept);
        (r.0, [e] + r.1)
  }

  /** The solver returns either the empty list or an input of `n` entries that the
      callback accepted, and emits one identifier per round: at least one when there are
      clauses, and at most as many as there are clauses, since every round removes one. */
  lemma {:induction false} RunOutcome(n: int, cs: Formula, input: seq<bool>, accept: seq<bool> -> bool)
    requires Shaped(n, cs) && |input| == n
    ensures var r := Run(n, cs, input, accept);
      && (r.0 == [] || (|r.0| == n && accept(r.0)))
      && |r.1| <= |cs|
      && (cs == [] ==> r == ([], []))
      && (cs != [] ==> 1 <= |r.1|)
    decreases |cs|
  {
    if cs != [] {
      RoundProgress(n, cs);
      var (v, value) := Decide(n, cs);
      var next := input[v - 1 := value];
      if !accept(next) {
        RunOutcome(n, Unhit(cs, {Literal(v, value)}), next, accept);
      }
    }
  }

  /** A variable that occurs in no clause keeps its value: the rounds only set variables
      that occur. With the all-true start, unmentioned variables are true in the answer. */
  lemma {:induction false} RunKeepsUnmentioned(n: int, cs: Formula, input: seq<bool>, accept: seq<bool> -> bool, i: int)
    requires Shaped(n, cs) && |input| == n && 0 <= i < n
    requires i + 1 !in Literals(cs) && -(i + 1) !in Literals(cs)
    ensures Run(n, cs, input, accept).0 != [] ==>
      i < |Run(n, cs, input, accept).0| && Run(n, cs, input, accept).0[i] == input[i]
    decreases |cs|
  {
    if cs != [] {
      ChosenOccurs(n, cs);
      var d := Decide(n, cs);
      var next := input[d.0 - 1 := d.1];
      var rest := Unhit(cs, {Literal(d.0, d.1)});
      RoundProgress(n, cs);
      RunStep(n, cs, input, accept, next, rest, Wrap32(Identifier.TrueIndexProduct(next)));
      OtherVariable(d.0, d.1, i, Literals(cs));
      if !accept(next) {
        LiteralsUnhit(cs, {Literal(d.0, d.1)});
        RunKeepsUnmentioned(n, rest, next, accept, i);
      }
    }
  }

  lemma OtherVariable(v: int, value: bool, i: int, lits: set<int>)
    requires Literal(v, value) in lits && i + 1 !in lits && -(i + 1) !in lits
    ensures v - 1 != i
  {
  }

  /** A round removes exactly the clauses in which the chosen variable occurs with the
      polarity that its new value makes true. */
  lemma RoundRemovesSatisfied(n: int, cs: Formula, input: seq<bool>)
    requires Shaped(n, cs) && cs != [] && |input| == n
    ensures 1 <= n
    ensures var (v, value) := Decide(n, cs);
      var next := input[v - 1 := value];
      var rest := Unhit(cs, {Literal(v, value)});
      forall c :: c in cs ==> (c in rest <==> !exists l :: l in c && Abs(l) == v && Holds(l, next))
  {
    RoundProgress(n, cs);
    var d := Decide(n, cs);
    var next := input[d.0 - 1 := d.1];
    UnhitMembers(cs, {Literal(d.0, d.1)});
    forall c | c in cs
      ensures Hits(c, {Literal(d.0, d.1)}) <==> exists l :: l in c && Abs(l) == d.0 && Holds(l, next)
    {
      HitsChosen(c, d.0, d.1, next);
    }
  }

  /** A clause contains the literal that sets `v` to `value` exactly when it has a literal
      of `v` that is true once `v` has that value. */
  lemma HitsChosen(c: Clause, v: int, value: bool, next: seq<bool>)
    requires 1 <= v <= |next| && next[v - 1] == value
    ensures Hits(c, {Literal(v, value)}) <==> exists l :: l in c && Abs(l) == v && Holds(l, next)
  {
    if Hits(c, {Literal(v, value)}) {
      var l :| l in c && l in {Literal(v, value)};
      assert Abs(l) == v && Holds(l, next);
    }
    if exists l :: l in c && Abs(l) == v && Holds(l, next) {
      var l :| l in c && Abs(l) == v && Holds(l, next);
      assert l == Literal(v, value);
    }
  }

  /** One round of the loop body up to the emission: count, choose the most frequent
      variable, set it to its majority value in `input`, remove the clauses it satisfies. */
  method Round(n: int, clauses: ClauseList, input: seq<bool>) returns (next: seq<bool>)
    requires Shaped(n, clauses.items) && clauses.items != [] && |input| == n
    modifies clauses
    ensures 1 <= n
    ensures next == input[Decide(n, old(clauses.items)).0 - 1 := Decide(n, old(clauses.items)).1]
    ensures clauses.items == Unhit(old(clauses.items), {Literal(Decide(n, old(clauses.items)).0, Decide(n, old(clauses.items)).1)})
  {
    ghost var cs := clauses.items;
    RoundProgress(n, cs);
    ShapedUniform(n, cs);
    var flat := Flatten(clauses.items);
    var counter, counterNegative, counterIndex := CountOccurrences(flat, n);
    var maxOccuredValue := MostFrequent(counter, n);
    assert IsFirstMax(flat, n, maxOccuredValue);
    FirstMaxUnique(flat, n, maxOccuredValue);
    var clauseLength := |clauses.items[0]|;
    var inputValue := 2 * counterNegative[maxOccuredValue] < counter[maxOccuredValue];
    assert (maxOccuredValue, inputValue) == Decide(n, cs);
    next := input[maxOccuredValue - 1 := inputValue];
    assert cs[0] in cs;
    RemoveSatisfied(clauses, counterIndex[maxOccuredValue], clauseLength, inputValue, maxOccuredValue);
  }

  /** The whole body of the loop of `Solve` but its exit: a round followed by the
      identifier of the new input, stated as one step of `Run`. */
  method Iteration(n: int, clauses: ClauseList, input: seq<bool>, accept: seq<bool> -> bool)
    returns (next: seq<bool>, uniqueInt: int32)
    requires Shaped(n, clauses.items) && clauses.items != [] && |input| == n
    modifies clauses
    ensures Shaped(n, clauses.items) && |clauses.items| < |old(clauses.items)| && |next| == n
    ensures accept(next) ==> Run(n, old(clauses.items), input, accept) == (next, [uniqueInt])
    ensures !accept(next) ==>
      && Run(n, old(clauses.items), input, accept).0 == Run(n, clauses.items, next, accept).0
      && Run(n, old(clauses.items), input, accept).1 == [uniqueInt] + Run(n, clauses.items, next, accept).1
  {
    ghost var cs := clauses.items;
    next := Round(n, clauses, input);
    uniqueInt := Identifier.UniqueInt(next);
    RunStep(n, cs, input, accept, next, clauses.items, uniqueInt);
  }

  /** The starting input: every variable true. */
  function AllTrue(n: nat): (r: seq<bool>)
    ensures |r| == n && forall i :: 0 <= i < n ==> r[i]
  {
    seq(n, _ => true)
  }

  /** `Solve`: `input` starts as `numVariables` trues; each round counts, chooses, sets one
      entry of `input`, removes the clauses the new value satisfies, emits the identifier
      of `input` and returns `input` if the callback accepts it; the empty list is
      returned once no clause is left. */
  method Solve(numVariables: int32, clauses: ClauseList, accept: seq<bool> -> bool)
    returns (output: seq<bool>, trace: seq<int32>)
    requires 0 <= numVariables && Shaped(numVariables as int, clauses.items)
    modifies clauses
    ensures (output, trace) == Run(numVariables as int, old(clauses.items), AllTrue(numVariables as int), accept)
    ensures output == [] || (|output| == numVariables as int && accept(output))
  {
    var n := numVariables as int;
    ghost var cs0 := clauses.items;
    var input := AllTrue(n);
    ghost var start := input;
    trace := [];
    assert Run(n, cs0, start, accept).1 == trace + Run(n, cs0, start, accept).1;
    while |clauses.items| > 0
      invariant Shaped(n, clauses.items) && |input| == n
      invariant Run(n, cs0, start, accept) ==
        (Run(n, clauses.items, input, accept).0, trace + Run(n, clauses.items, input, accept).1)
      decreases |clauses.items|
    {
      var uniqueInt;
      ghost var done := trace;
      input, uniqueInt := Iteration(n, clauses, input, accept);
      trace := trace + [uniqueInt];
      if accept(input) {
        return input, trace;
      }
      ghost var after := Run(n, clauses.items, input, accept);
      assert done + ([uniqueInt] + after.1) == trace + after.1;
    }
    assert Run(n, clauses.items, input, accept) == ([], []);
    assert trace + [] == trace;
    output := [];
    assert (output, trace) == Run(n, cs0, start, accept);
  }

  /** One iteration of the loop of `Solve`, stated on `Run`: the round's new input and
      remaining clauses continue the run, and the emitted identifier extends the trace. */
  lemma RunStep(n: int, cs: Formula, before: seq<bool>, accept: seq<bool> -> bool,
                next: seq<bool>, rest: Formula, e: int32)
    requires Shaped(n, cs) && cs != [] && |before| == n && 1 <= n
    requires next == before[Decide(n, cs).0 - 1 := Decide(n, cs).1]
    requires rest == Unhit(cs, {Literal(Decide(n, cs).0, Decide(n, cs).1)})
    requires e == Wrap32(Identifier.TrueIndexProduct(next))
    ensures Shaped(n, rest) && |rest| < |cs| && |next| == n
    ensures accept(next) ==> Run(n, cs, before, accept) == (next, [e])
    ensures !accept(next) ==>
      && Run(n, cs, before, accept).0 == Run(n, rest, next, accept).0
      && Run(n, cs, before, accept).1 == [e] + Run(n, rest, next, accept).1
  {
    RoundProgress(n, cs);
    RunUnfold(n, cs, before, accept);
  }

  /** `Run` on a nonempty list, one round unfolded. */
  lemma RunUnfold(n: int, cs: Formula, input: seq<bool>, accept: seq<bool> -> bool)
    requires Shaped(n, cs) && cs != [] && |input| == n
    ensures 1 <= n
    ensures var (v, value) := Decide(n, cs);
      var next := input[v - 1 := value];
      var rest := Unhit(cs, {Literal(v, value)});
      var e := Wrap32(Identifier.TrueIndexProduct(next));
      && Shaped(n, rest)
      && Run(n, cs, input, accept) ==
        if accept(next) then (next, [e])
        else (Run(n, rest, next, accept).0, [e] + Run(n, rest, next, accept).1)
  {
    RoundProgress(n, cs);
  }
}
