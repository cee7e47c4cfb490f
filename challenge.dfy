/** Satisfiability.Challenge: the shape of an instance (Difficulty), the deterministic
    3SAT generator, and the CNF evaluator `IsInputSolution`. */
module Challenge {
  import opened Common

  /** `Difficulty`: the number of variables and the clause/variable ratio, a fixed-point
      number scaled by 100 (3.53 is stored as 353). Immutable once constructed. */
  datatype Difficulty = Difficulty(numVariables: int32, clausesToVariablesRatio: int32)
  {
    /** What the constructor checks: at least three variables and a ratio of at least 1. */
    predicate Valid()
    {
      numVariables >= 3 && clausesToVariablesRatio >= 1
    }
  }

  const NUM_LITERALS_PER_CLAUSE: nat := 3

  /** The `Difficulty` constructor: rejects fewer than three variables, then a ratio below
      one, and otherwise stores both values unchanged. */
  function NewDifficulty(numVariables: int32, clausesToVariablesRatio: int32): (r: Result<Difficulty, Error>)
    ensures r.Ok? <==> numVariables >= 3 && clausesToVariablesRatio >= 1
    ensures r.Ok? ==>
      && r.value.Valid()
      && r.value.numVariables == numVariables
      && r.value.clausesToVariablesRatio == clausesToVariablesRatio
    ensures r.Err? ==> r.error == ArgumentException
  {
    if numVariables < 3 then Err(ArgumentException)
    else if clausesToVariablesRatio < 1 then Err(ArgumentException)
    else Ok(Difficulty(numVariables, clausesToVariablesRatio))
  }

  /** C#'s `/` on `int`, which truncates toward zero. */
  function DivTrunc(a: int, b: int): int
    requires b > 0
  {
    if a >= 0 then a / b else -((-a) / b)
  }

  /** The clause count of a difficulty: the variable count times the ratio, taken in
      wrapping 32-bit arithmetic, then divided by 100 with truncation. */
  function NumClauses(d: Difficulty): (r: int32)
    ensures 0 <= d.numVariables * d.clausesToVariablesRatio <= INT32_MAX ==>
      r == d.numVariables * d.clausesToVariablesRatio / 100
    ensures d.Valid() && d.numVariables * d.clausesToVariablesRatio <= INT32_MAX ==> r >= 0
  {
    DivTrunc(Wrap32(d.numVariables * d.clausesToVariablesRatio), 100)
  }

  /** The number of clauses the generator's loop produces: none when the wrapped count
      is negative. */
  function ClauseCount(d: Difficulty): nat
  {
    if NumClauses(d) < 0 then 0 else NumClauses(d)
  }

  // ---- Fields / FromEncoding: decimal printing and parsing of the two values ----

  function DigitChar(d: nat): char
    requires d < 10
  {
    ('0' as int + d) as char
  }

  predicate IsDigit(c: char)
  {
    '0' as int <= c as int <= '9' as int
  }

  /** `int.ToString()` of a non-negative value: decimal digits, no leading zero. */
  function NatToString(x: nat): string
  {
    if x < 10 then [DigitChar(x)] else NatToString(x / 10) + [DigitChar(x % 10)]
  }

  /** `int.ToString()`: a leading `-` for negative values. */
  function IntToString(x: int): string
  {
    if x < 0 then "-" + NatToString(-x) else NatToString(x)
  }

  function DigitsValue(s: string): nat
    requires forall c :: c in s ==> IsDigit(c)
  {
    if s == [] then 0
    else
      assert s[|s| - 1] in s && IsDigit(s[|s| - 1]);
      var digit := s[|s| - 1] as int - '0' as int;
      DigitsValue(s[..|s| - 1]) * 10 + digit
  }

  /** The white space `int.Parse` skips around a number: U+0009 to U+000D and the space. */
  predicate IsWhite(c: char)
  {
    c == ' ' || '\t' as int <= c as int <= '\r' as int
  }

  /** `s` without its leading white space. */
  function TrimStart(s: string): (r: string)
    ensures |r| <= |s| && r == s[|s| - |r|..]
    ensures forall i :: 0 <= i < |s| - |r| ==> IsWhite(s[i])
    ensures r != [] ==> !IsWhite(r[0])
  {
    if s != [] && IsWhite(s[0]) then TrimStart(s[1..]) else s
  }

  /** `s` without its trailing white space. */
  function TrimEnd(s: string): (r: string)
    ensures |r| <= |s| && r == s[..|r|]
    ensures forall i :: |r| <= i < |s| ==> IsWhite(s[i])
    ensures r != [] ==> !IsWhite(r[|r| - 1])
  {
    if s != [] && IsWhite(s[|s| - 1]) then TrimEnd(s[..|s| - 1]) else s
  }

  /** The number itself, once the white space around it is gone: an optional sign and at
      least one decimal digit; a value outside the `int` range is an overflow, anything
      else a format error. */
  function ParseNumber(t: string): Result<int32, Error>
  {
    var negative := |t| > 0 && t[0] == '-';
    var body := if |t| > 0 && (t[0] == '-' || t[0] == '+') then t[1..] else t;
    if body == [] || exists c :: c in body && !IsDigit(c) then Err(FormatException)
    else
      var v: int := if negative then -(DigitsValue(body) as int) else DigitsValue(body);
      if INT32_MIN <= v <= INT32_MAX then Ok(v) else Err(OverflowException)
  }

  /** `int.Parse` with the default number style: leading and trailing white space is
      skipped, then the number is read. A parsed text holds nothing but white space,
      signs and digits, and a text of white space alone is a format error. */
  function ParseInt32(s: string): (r: Result<int32, Error>)
    ensures r.Ok? ==> forall c :: c in s ==> IsWhite(c) || IsDigit(c) || c == '-' || c == '+'
    ensures (forall c :: c in s ==> IsWhite(c)) ==> r == Err(FormatException)
  {
    var t := TrimEnd(TrimStart(s));
    ParseNumberChars(t);
    TrimmedChars(s);
    ParseNumber(t)
  }

  /** A number that parses holds only signs and digits. */
  lemma ParseNumberChars(t: string)
    ensures ParseNumber(t).Ok? ==> forall c :: c in t ==> IsDigit(c) || c == '-' || c == '+'
  {
    if ParseNumber(t).Ok? {
      forall c | c in t
        ensures IsDigit(c) || c == '-' || c == '+'
      {
        var i :| 0 <= i < |t| && t[i] == c;
        if i > 0 {
          assert t[1..][i - 1] == c;
        }
      }
    }
  }

  /** Trimming drops white space only, and leaves nothing of a text of white space alone. */
  lemma TrimmedChars(s: string)
    ensures forall c :: c in s ==> IsWhite(c) || c in TrimEnd(TrimStart(s))
    ensures (forall c :: c in s ==> IsWhite(c)) ==> TrimEnd(TrimStart(s)) == []
  {
    var t1 := TrimStart(s);
    var t := TrimEnd(t1);
    forall i | 0 <= i < |s| && !IsWhite(s[i])
      ensures s[i] in t
    {
      var j := i - (|s| - |t1|);
      assert 0 <= j < |t1| && t1[j] == s[i];
      assert j < |t| && t[j] == s[i];
    }
    if t != [] {
      assert t[0] == t1[0] == s[|s| - |t1|];
    }
  }

  lemma {:induction false} NatToStringDigits(x: nat)
    ensures NatToString(x) != []
    ensures forall c :: c in NatToString(x) ==> IsDigit(c)
    ensures DigitsValue(NatToString(x)) == x
  {
    if x >= 10 {
      NatToStringDigits(x / 10);
      var s := NatToString(x);
      assert s[..|s| - 1] == NatToString(x / 10);
    }
  }

  lemma {:induction false} TrimStartPadded(w: string, t: string)
    requires forall c :: c in w ==> IsWhite(c)
    requires t != [] && !IsWhite(t[0])
    ensures TrimStart(w + t) == t
    decreases |w|
  {
    if w == [] {
      assert w + t == t;
    } else {
      assert w[0] in w;
      assert (w + t)[1..] == w[1..] + t;
      TrimStartPadded(w[1..], t);
    }
  }

  lemma {:induction false} TrimEndPadded(t: string, w: string)
    requires forall c :: c in w ==> IsWhite(c)
    requires t != [] && !IsWhite(t[|t| - 1])
    ensures TrimEnd(t + w) == t
    decreases |w|
  {
    if w == [] {
      assert t + w == t;
    } else {
      assert w[|w| - 1] in w;
      assert (t + w)[..|t + w| - 1] == t + w[..|w| - 1];
      TrimEndPadded(t, w[..|w| - 1]);
    }
  }

  /** The printed text of an `int` is read back as that `int`. */
  lemma NumberToString(x: int32)
    ensures ParseNumber(IntToString(x)) == Ok(x)
  {
    NatToStringDigits(Abs(x));
    var s := IntToString(x);
    if x < 0 {
      assert s[1..] == NatToString(-(x as int));
    } else {
      assert s[0] in NatToString(x);
    }
  }

  /** The printed text of an `int` starts and ends with a character that is not white. */
  lemma PrintedEnds(x: int32)
    ensures var s := IntToString(x); s != [] && !IsWhite(s[0]) && !IsWhite(s[|s| - 1])
  {
    NatToStringDigits(Abs(x));
    var digits := NatToString(Abs(x));
    assert digits[|digits| - 1] in digits && digits[0] in digits;
  }

  /** Printing then parsing gives back every `int`, whatever white space surrounds the
      printed text. */
  lemma ParsePadded(x: int32, before: string, after: string)
    requires forall c :: c in before ==> IsWhite(c)
    requires forall c :: c in after ==> IsWhite(c)
    ensures ParseInt32(before + IntToString(x) + after) == Ok(x)
  {
    var s := IntToString(x);
    PrintedEnds(x);
    assert before + s + after == before + (s + after);
    TrimStartPadded(before, s + after);
    TrimEndPadded(s, after);
    assert TrimEnd(TrimStart(before + s + after)) == s;
    NumberToString(x);
  }

  /** Printing then parsing gives back every `int`. */
  lemma ParseIntToString(x: int32)
    ensures ParseInt32(IntToString(x)) == Ok(x)
  {
    ParsePadded(x, "", "");
    assert "" + IntToString(x) + "" == IntToString(x);
  }

  /** `Fields()`: the two values in decimal. */
  function Fields(d: Difficulty): (r: seq<string>)
    ensures |r| == 2
    ensures ParseInt32(r[0]) == Ok(d.numVariables) && ParseInt32(r[1]) == Ok(d.clausesToVariablesRatio)
  {
    ParseIntToString(d.numVariables);
    ParseIntToString(d.clausesToVariablesRatio);
    [IntToString(d.numVariables), IntToString(d.clausesToVariablesRatio)]
  }

  /** `FromEncoding(fields)`: parse `fields[0]`, then `fields[1]`, then run the
      constructor's checks. A missing field is an index error. */
  function FromEncoding(fields: seq<string>): (r: Result<Difficulty, Error>)
    ensures fields == [] ==> r == Err(IndexOutOfRange)
    ensures r.Ok? ==>
      && |fields| >= 2 && r.value.Valid()
      && ParseInt32(fields[0]) == Ok(r.value.numVariables)
      && ParseInt32(fields[1]) == Ok(r.value.clausesToVariablesRatio)
  {
    if |fields| < 1 then Err(IndexOutOfRange)
    else match ParseInt32(fields[0])
      case Err(e) => Err(e)
      case Ok(numVariables) =>
        if |fields| < 2 then Err(IndexOutOfRange)
        else match ParseInt32(fields[1])
          case Err(e) => Err(e)
          case Ok(ratio) => NewDifficulty(numVariables, ratio)
  }

  /** Encoding a valid Difficulty as fields and decoding it gives it back. */
  lemma FromEncodingFields(d: Difficulty)
    requires d.Valid()
    ensures FromEncoding(Fields(d)) == Ok(d)
  {
    ParseIntToString(d.numVariables);
    ParseIntToString(d.clausesToVariablesRatio);
  }

  /** White space around either field is skipped: `" 5"` reads as `5`. */
  lemma FromEncodingPadded(d: Difficulty, w1: string, w2: string, w3: string, w4: string)
    requires d.Valid()
    requires forall c :: c in w1 + w2 + w3 + w4 ==> IsWhite(c)
    ensures FromEncoding([w1 + IntToString(d.numVariables) + w2,
                          w3 + IntToString(d.clausesToVariablesRatio) + w4]) == Ok(d)
  {
    assert forall c :: c in w1 ==> c in w1 + w2 + w3 + w4;
    assert forall c :: c in w2 ==> c in w1 + w2 + w3 + w4;
    assert forall c :: c in w3 ==> c in w1 + w2 + w3 + w4;
    assert forall c :: c in w4 ==> c in w1 + w2 + w3 + w4;
    ParsePadded(d.numVariables, w1, w2);
    ParsePadded(d.clausesToVariablesRatio, w3, w4);
  }

  // ---- The generator ----

  /** `Challenge`: the seed, the difficulty and the generated clauses. */
  datatype Challenge = Challenge(seed: int32, difficulty: Difficulty, clauses: Formula)

  /** The generator's stream is seeded with the challenge seed plus 1337, wrapped to 32 bits. */
  function GeneratorSeed(seed: int32): (r: int32)
    ensures seed <= INT32_MAX - 1337 ==> r == seed + 1337
    ensures seed > INT32_MAX - 1337 ==> r == seed + 1337 - TWO_POW_32
  {
    Wrap32(seed + 1337)
  }

  /** The six draws of one clause, in order: for each slot `j` in 0, 1, 2, first
      `Next(n - j)` and then `Next()` (the sign coin). `Random.Next(max)` promises a
      result in `[0, max)`. */
  predicate ChunkValid(d: seq<int>, n: int)
  {
    |d| >= 6 && 0 <= d[0] < n && 0 <= d[2] < n - 1 && 0 <= d[4] < n - 2
  }

  /** The draws of the first `count` clauses, six per clause. */
  predicate ValidDraws(draws: seq<int>, n: int, count: nat)
  {
    |draws| >= 6 * count
    && (count > 0 ==> ValidDraws(draws, n, count - 1) && ChunkValid(draws[6 * (count - 1)..6 * count], n))
  }

  lemma {:induction false} ValidDrawsPrefix(draws: seq<int>, n: int, count: nat, i: nat)
    requires ValidDraws(draws, n, count) && i <= count
    ensures ValidDraws(draws, n, i)
    ensures i < count ==> ChunkValid(draws[6 * i..6 * (i + 1)], n)
    decreases count
  {
    if i < count {
      ValidDrawsPrefix(draws, n, count - 1, i);
    }
  }

  /** `Enumerable.Range(1, n).ToList()`. */
  function Range(n: nat): (r: seq<int>)
    ensures |r| == n && forall k :: 0 <= k < n ==> r[k] == k + 1
  {
    seq(n, k => k + 1)
  }

  /** `p` holds each of `1..n` exactly once. */
  predicate IsPermutation(p: seq<int>, n: int)
  {
    |p| == n
    && (forall k :: 0 <= k < n ==> 1 <= p[k] <= n)
    && (forall a, b :: 0 <= a < b < n ==> p[a] != p[b])
  }

  /** One literal slot `j`: read the variable at `idx`, swap it into tail slot `n - 1 - j`,
      negate it when the coin is even. */
  function Pick(n: int, p: seq<int>, j: nat, idx: int, coin: int): (r: (int, seq<int>))
    requires |p| == n && j < n && 0 <= idx < n - j
    ensures |r.1| == n
  {
    var v := p[idx];
    (if coin % 2 == 0 then -v else v, p[idx := p[n - 1 - j]][n - 1 - j := v])
  }

  /** The first `j` slots of one clause, from the clause's six draws `d`. */
  function ClauseFrom(n: int, p: seq<int>, d: seq<int>, j: nat): (r: (Clause, seq<int>))
    requires |p| == n && j <= 3 <= n && ChunkValid(d, n)
    ensures |r.0| == j && |r.1| == n
  {
    if j == 0 then ([], p)
    else
      var (c, p1) := ClauseFrom(n, p, d, j - 1);
      var (lit, p2) := Pick(n, p1, j - 1, d[2 * (j - 1)], d[2 * (j - 1) + 1]);
      (c + [lit], p2)
  }

  /** The first `i` clauses generated from `draws`, and the permutation after them. The
      permutation is carried from clause to clause, never reset. */
  function Generate(n: int, p: seq<int>, draws: seq<int>, i: nat): (r: (Formula, seq<int>))
    requires |p| == n && 3 <= n && ValidDraws(draws, n, i)
    ensures |r.0| == i && |r.1| == n
  {
    if i == 0 then ([], p)
    else
      var (cs, p1) := Generate(n, p, draws, i - 1);
      var (c, p2) := ClauseFrom(n, p1, draws[6 * (i - 1)..6 * i], 3);
      (cs + [c], p2)
  }

  /** One more clause of the generator: the next chunk of six draws, over the
      permutation the earlier clauses left. */
  lemma GenerateStep(n: int, p: seq<int>, draws: seq<int>, i: nat)
    requires |p| == n && 3 <= n && ValidDraws(draws, n, i + 1)
    ensures ValidDraws(draws, n, i) && 6 * i + 6 <= |draws|
    ensures ChunkValid(draws[6 * i..6 * i + 6], n)
    ensures var (cs, p1) := Generate(n, p, draws, i);
      var (c, p2) := ClauseFrom(n, p1, draws[6 * i..6 * i + 6], 3);
      Generate(n, p, draws, i + 1) == (cs + [c], p2)
  {
    assert 6 * (i + 1 - 1) == 6 * i && 6 * (i + 1) == 6 * i + 6;
  }

  /** The swap of `Pick` keeps a permutation a permutation. */
  lemma PickKeepsPermutation(n: int, p: seq<int>, j: nat, idx: int, coin: int)
    requires |p| == n && j < n && 0 <= idx < n - j
    requires IsPermutation(p, n)
    ensures IsPermutation(Pick(n, p, j, idx, coin).1, n)
  {
    var p' := Pick(n, p, j, idx, coin).1;
    forall a, b | 0 <= a < b < n
      ensures p'[a] != p'[b]
    {
      var a' := if a == idx then n - 1 - j else if a == n - 1 - j then idx else a;
      var b' := if b == idx then n - 1 - j else if b == n - 1 - j then idx else b;
      assert p'[a] == p[a'] && p'[b] == p[b'] && a' != b';
    }
  }

  /** After `j` slots the permutation is still a permutation, the clause's variables sit
      in the tail slots `n - 1 - s`, and each literal is negative exactly when its coin
      was even. */
  lemma {:induction false} ClauseFromShape(n: int, p: seq<int>, d: seq<int>, j: nat)
    requires |p| == n && j <= 3 <= n && ChunkValid(d, n)
    requires IsPermutation(p, n)
    ensures IsPermutation(ClauseFrom(n, p, d, j).1, n)
    ensures forall s :: 0 <= s < j ==> Abs(ClauseFrom(n, p, d, j).0[s]) == ClauseFrom(n, p, d, j).1[n - 1 - s]
    ensures forall s :: 0 <= s < j ==> (ClauseFrom(n, p, d, j).0[s] < 0 <==> d[2 * s + 1] % 2 == 0)
  {
    if j > 0 {
      ClauseFromShape(n, p, d, j - 1);
      var p1 := ClauseFrom(n, p, d, j - 1).1;
      PickKeepsPermutation(n, p1, j - 1, d[2 * (j - 1)], d[2 * (j - 1) + 1]);
    }
  }

  /** The generated clauses: exactly `i` of them, each of exactly three literals naming
      pairwise distinct variables among `1..n`; the permutation stays a permutation. */
  lemma {:induction false} GenerateShape(n: int, p: seq<int>, draws: seq<int>, i: nat)
    requires |p| == n && 3 <= n && ValidDraws(draws, n, i)
    requires IsPermutation(p, n)
    ensures IsPermutation(Generate(n, p, draws, i).1, n)
    ensures WellFormed(n, Generate(n, p, draws, i).0)
    ensures forall c :: c in Generate(n, p, draws, i).0 ==> |c| == NUM_LITERALS_PER_CLAUSE
  {
    if i > 0 {
      GenerateShape(n, p, draws, i - 1);
      var (cs, p1) := Generate(n, p, draws, i - 1);
      var d := draws[6 * (i - 1)..6 * i];
      ClauseFromShape(n, p1, d, 3);
      var (c, p2) := ClauseFrom(n, p1, d, 3);
      assert Generate(n, p, draws, i).0 == cs + [c];
      assert DistinctVars(c);
      forall l | l in c
        ensures InRange(n, l)
      {
        var s :| 0 <= s < 3 && c[s] == l;
      }
    }
  }

  /** The literal in slot `j` of clause `k` is negative exactly when the coin drawn right
      after its index was even. */
  lemma {:induction false} GenerateSigns(n: int, p: seq<int>, draws: seq<int>, i: nat, k: nat, j: nat)
    requires |p| == n && 3 <= n && ValidDraws(draws, n, i)
    requires IsPermutation(p, n)
    requires k < i && j < 3
    ensures |Generate(n, p, draws, i).0[k]| == NUM_LITERALS_PER_CLAUSE
    ensures Generate(n, p, draws, i).0[k][j] < 0 <==> draws[6 * k + 2 * j + 1] % 2 == 0
  {
    GenerateShape(n, p, draws, i);
    GenerateShape(n, p, draws, i - 1);
    var (cs, p1) := Generate(n, p, draws, i - 1);
    if k == i - 1 {
      var d := draws[6 * (i - 1)..6 * i];
      ClauseFromShape(n, p1, d, 3);
      assert d[2 * j + 1] == draws[6 * k + 2 * j + 1];
    } else {
      GenerateSigns(n, p, draws, i - 1, k, j);
    }
  }

  /** The inner loop of the `Challenge` constructor: three slots, each drawing an index
      into the untaken head of `variables`, swapping the drawn variable into tail slot
      `n - 1 - j` and drawing its sign. Consumes the six draws starting at `next`. */
  method DrawClause(variables: array<int>, draws: seq<int>, next: nat) returns (clause: Clause)
    requires 3 <= variables.Length && next + 6 <= |draws|
    requires ChunkValid(draws[next..next + 6], variables.Length)
    modifies variables
    ensures (clause, variables[..])
      == ClauseFrom(variables.Length, old(variables[..]), draws[next..next + 6], 3)
  {
    var n := variables.Length;
    ghost var d := draws[next..next + 6];
    ghost var before := variables[..];
    clause := [];
    var k := next;
    for j := 0 to NUM_LITERALS_PER_CLAUSE
      invariant k == next + 2 * j
      invariant (clause, variables[..]) == ClauseFrom(n, before, d, j)
    {
      assert draws[k] == d[2 * j] && draws[k + 1] == d[2 * j + 1];
      ghost var p := variables[..];
      var idx := draws[k];
      k := k + 1;
      var v := variables[idx];
      variables[idx], variables[n - 1 - j] := variables[n - 1 - j], variables[idx];
      if draws[k] % 2 == 0 {
        v := -v;
      }
      k := k + 1;
      assert (v, variables[..]) == Pick(n, p, j, d[2 * j], d[2 * j + 1]);
      clause := clause + [v];
    }
  }

  /** The constructor's loop: clause `i` takes its three variables from the `i`-th
      chunk of six draws, over the permutation the earlier clauses left. */
  method DrawClauses(variables: array<int>, draws: seq<int>, count: nat) returns (clauses: Formula)
    requires 3 <= variables.Length && ValidDraws(draws, variables.Length, count)
    modifies variables
    ensures (clauses, variables[..]) == Generate(variables.Length, old(variables[..]), draws, count)
  {
    var n := variables.Length;
    ghost var p0 := variables[..];
    clauses := [];
    ValidDrawsPrefix(draws, n, count, 0);
    for i := 0 to count
      invariant ValidDraws(draws, n, i)
      invariant (clauses, variables[..]) == Generate(n, p0, draws, i)
    {
      ValidDrawsPrefix(draws, n, count, i + 1);
      GenerateStep(n, p0, draws, i);
      var clause := DrawClause(variables, draws, 6 * i);
      clauses := clauses + [clause];
    }
  }

  /** `Enumerable.Range(1, n).ToArray()`. */
  method RangeArray(n: nat) returns (variables: array<int>)
    ensures fresh(variables)
    ensures variables[..] == Range(n)
  {
    variables := new int[n];
    for k := 0 to n
      invariant forall m :: 0 <= m < k ==> variables[m] == m + 1
    {
      variables[k] := k + 1;
    }
  }

  /** The `Challenge(difficulty, seed)` constructor: one permutation `variables` of `1..n`
      kept across all clauses, from which each clause draws its three variables.
      `random` maps the seed of a `System.Random` to the draws it makes. */
  method NewChallenge(difficulty: Difficulty, seed: int32, random: int32 -> seq<int>)
    returns (challenge: Challenge)
    requires difficulty.Valid()
    requires ValidDraws(random(GeneratorSeed(seed)), difficulty.numVariables, ClauseCount(difficulty))
    ensures challenge.seed == seed && challenge.difficulty == difficulty
    ensures challenge.clauses == Generated(difficulty, random(GeneratorSeed(seed)))
  {
    var n: int := difficulty.numVariables;
    var draws := random(GeneratorSeed(seed));
    var count := ClauseCount(difficulty);
    var variables := RangeArray(n);
    var clauses := DrawClauses(variables, draws, count);
    challenge := Challenge(seed, difficulty, clauses);
  }

  /** The clauses of the challenge generated from `draws`. */
  function Generated(difficulty: Difficulty, draws: seq<int>): Formula
    requires difficulty.Valid()
    requires ValidDraws(draws, difficulty.numVariables, ClauseCount(difficulty))
  {
    Generate(difficulty.numVariables, Range(difficulty.numVariables), draws, ClauseCount(difficulty)).0
  }

  /** A generated challenge has exactly `ClauseCount` clauses of three literals with
      pairwise distinct variables among `1..n`; the draws fully determine it. */
  lemma GeneratedWellFormed(difficulty: Difficulty, draws: seq<int>)
    requires difficulty.Valid()
    requires ValidDraws(draws, difficulty.numVariables, ClauseCount(difficulty))
    ensures |Generated(difficulty, draws)| == ClauseCount(difficulty)
    ensures WellFormed(difficulty.numVariables, Generated(difficulty, draws))
    ensures forall c :: c in Generated(difficulty, draws) ==> |c| == NUM_LITERALS_PER_CLAUSE
  {
    GenerateShape(difficulty.numVariables, Range(difficulty.numVariables), draws, ClauseCount(difficulty));
  }

  // ---- The evaluator ----

  /** `IsInputSolution(input)`: false when the input does not have one entry per
      variable; otherwise every clause needs a literal `l` with `input[|l| - 1] == (l > 0)`. */
  function IsInputSolution(challenge: Challenge, input: seq<bool>): (r: bool)
    ensures r ==> |input| == challenge.difficulty.numVariables
    ensures r <==>
      && |input| == challenge.difficulty.numVariables
      && forall c :: c in challenge.clauses ==> exists l :: l in c && Holds(l, input)
  {
    |input| == challenge.difficulty.numVariables && Satisfies(challenge.clauses, input)
  }

  /** The example in FastSat.cs's comment: `(v2 or not v3 or v1) and (not v4 or not v2 or v5)`
      with `{true, false, false, false, false}`. */
  lemma ExampleIsSolution()
    ensures IsInputSolution(Challenge(0, Difficulty(5, 100), [[2, -3, 1], [-4, -2, 5]]),
                            [true, false, false, false, false])
    ensures !IsInputSolution(Challenge(0, Difficulty(5, 100), [[2, -3, 1], [-4, -2, 5]]),
                             [true, false, false, false])
  {
    var input := [true, false, false, false, false];
    assert Holds(1, input);
    assert Holds(-4, input);
  }
}
