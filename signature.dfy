/** The 64-bit value that identifies the type of a UEFI table
    (include/uefi/signature.h). */
module Signatures {

  /** A signature wraps one 64-bit value; the source constructs it implicitly
      from a `uint64_t` and converts it back implicitly. */
  datatype Signature = Signature(value: bv64) {

    /** The implicit conversion back to `uint64_t`. */
    function ToU64(): (r: bv64)
      ensures Signature(r) == this
    {
      value
    }
  }

  /** `operator==(Signature, Signature)`: the two wrapped values are equal,
      which is equality of the signatures themselves: the wrapper adds nothing
      that the comparison could miss. */
  predicate Equal(lhs: Signature, rhs: Signature)
    ensures Equal(lhs, rhs) <==> lhs == rhs
  {
    lhs.value == rhs.value
  }

  /** Constructing a signature and converting it back gives the original value. */
  lemma ToU64RoundTrip(v: bv64)
    ensures Signature(v).ToU64() == v
  {
  }

  /** `==` is reflexive and symmetric. */
  lemma EqualReflexiveSymmetric(a: Signature, b: Signature)
    ensures Equal(a, a)
    ensures Equal(a, b) <==> Equal(b, a)
  {
  }

  /** Construction is injective: distinct values give signatures that are not `==`. */
  lemma ConstructionInjective(u: bv64, v: bv64)
    ensures Equal(Signature(u), Signature(v)) <==> u == v
  {
  }
}
