/** The progress identifier that DeterministicSATSolver.cs and
    PureLiteralPropagation.cs pass to the emission channel after every attempt: the
    product of the indices `i` in `[1, |input|)` whose entry is true, computed in C#'s
    wrapping 32-bit `int`. Both files carry the same three lines; they are modelled once. */
module Identifier {
  import opened Common

  /** The exact (unbounded) product of the indices `i` in `[1, |input|)` with `input[i]`. */
  function TrueIndexProduct(input: seq<bool>): (p: nat)
    ensures p >= 1
  {
    if |input| <= 1 then 1
    else TrueIndexProduct(input[..|input| - 1]) * (if input[|input| - 1] then |input| - 1 else 1)
  }

  /** Entry 0 never contributes, and a false entry contributes a factor of one. */
  lemma {:induction false} ProductOfFalse(input: seq<bool>)
    requires forall i :: 0 <= i < |input| ==> !input[i]
    ensures TrueIndexProduct(input) == 1
  {
    if |input| > 1 {
      ProductOfFalse(input[..|input| - 1]);
    }
  }

  /** The identifier loop: starting from one, multiply by each index `i >= 1` whose entry
      is true, wrapping at every step. The result is the exact product reduced to 32 bits. */
  method UniqueInt(input: seq<bool>) returns (uniqueInt: int32)
    ensures uniqueInt == Wrap32(TrueIndexProduct(input))
  {
    uniqueInt := 1;
    var i := 1;
    while i < |input|
      invariant 1 <= i
      invariant i <= |input| || |input| == 0
      invariant uniqueInt == Wrap32(TrueIndexProduct(input[..if i <= |input| then i else 0]))
    {
      assert input[..i + 1][..i] == input[..i];
      Wrap32Mul(TrueIndexProduct(input[..i]), if input[i] then i else 1);
      uniqueInt := Wrap32(uniqueInt * (if input[i] then i else 1));
      i := i + 1;
    }
    if |input| > 0 {
      assert input[..i] == input;
    }
  }
}
