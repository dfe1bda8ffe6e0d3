/** UEFI status codes (include/uefi/status.h): 64-bit values whose most
    significant bit marks an error, numbered as in Appendix D of the UEFI
    Specification. */
module StatusCodes {

  /** The high-order bit of a 64-bit status. */
  const ERROR_BIT: bv64 := 0x8000_0000_0000_0000

  /** `make_error_code`: sets the high-order bit and keeps the other 63. */
  function MakeErrorCode(value: bv64): (r: bv64)
    ensures r & ERROR_BIT == ERROR_BIT
    ensures r & !ERROR_BIT == value & !ERROR_BIT
  {
    value | ERROR_BIT
  }

  /** `is_error_code`: bit 63 of the code, read by shifting it down. */
  predicate IsErrorCode(code: bv64)
    ensures IsErrorCode(code) <==> code >= ERROR_BIT
  {
    (code >> 63) & 1 != 0
  }

  /** The enumerators of `Status`. */
  const SUCCESS: bv64 := 0
  const LOAD_ERROR: bv64 := MakeErrorCode(1)
  const INVALID_PARAMETER: bv64 := MakeErrorCode(2)
  const UNSUPPORTED: bv64 := MakeErrorCode(3)
  const BAD_BUFFER_SIZE: bv64 := MakeErrorCode(4)
  const BUFFER_TOO_SMALL: bv64 := MakeErrorCode(5)
  const NOT_FOUND: bv64 := MakeErrorCode(14)
  const SECURITY_VIOLATION: bv64 := MakeErrorCode(26)

  /** Every enumerator but `Success`, in declaration order. */
  const ERROR_CODES: seq<bv64> :=
    [LOAD_ERROR, INVALID_PARAMETER, UNSUPPORTED, BAD_BUFFER_SIZE, BUFFER_TOO_SMALL, NOT_FOUND, SECURITY_VIOLATION]

  /** Their numbers in Appendix D. */
  const ERROR_NUMBERS: seq<bv64> := [1, 2, 3, 4, 5, 14, 26]

  /** A code is an error exactly when its high-order bit is set. */
  lemma IsErrorCodeIffHighBit(code: bv64)
    ensures IsErrorCode(code) <==> code & ERROR_BIT != 0
  {
  }

  /** Whatever `make_error_code` is given, it returns an error code, and it
      changes a value exactly when that value is not already one. */
  lemma MakeErrorCodeIsError(value: bv64)
    ensures IsErrorCode(MakeErrorCode(value))
    ensures MakeErrorCode(value) == value <==> IsErrorCode(value)
  {
  }

  lemma MakeErrorCodeIdempotent(value: bv64)
    ensures MakeErrorCode(MakeErrorCode(value)) == MakeErrorCode(value)
  {
  }

  /** Two values give the same error code exactly when they agree below
      bit 63. */
  lemma MakeErrorCodeInjectiveBelowBit63(u: bv64, v: bv64)
    ensures MakeErrorCode(u) == MakeErrorCode(v) <==> u & !ERROR_BIT == v & !ERROR_BIT
  {
    if MakeErrorCode(u) == MakeErrorCode(v) {
      LowBitsOfErrorCode(u, MakeErrorCode(u));
      LowBitsOfErrorCode(v, MakeErrorCode(v));
    }
    if u & !ERROR_BIT == v & !ERROR_BIT {
      ErrorCodeFromLowBits(u);
      ErrorCodeFromLowBits(v);
    }
  }

  /** No error code is `Success`. */
  lemma ErrorIsNotSuccess(code: bv64)
    requires IsErrorCode(code)
    ensures code != SUCCESS
  {
  }

  lemma LowBitsOfErrorCode(value: bv64, code: bv64)
    requires code == MakeErrorCode(value)
    ensures code & !ERROR_BIT == value & !ERROR_BIT
  {
  }

  /** An error code depends only on the low 63 bits of the value. */
  lemma ErrorCodeFromLowBits(value: bv64)
    ensures MakeErrorCode(value) == (value & !ERROR_BIT) | ERROR_BIT
  {
  }

  /** `Success` is not an error; every other enumerator is, and carries its
      Appendix D number in the low 63 bits; no two enumerators coincide. */
  lemma EnumeratorsClassified()
    ensures !IsErrorCode(SUCCESS)
    ensures |ERROR_CODES| == |ERROR_NUMBERS|
    ensures forall i :: 0 <= i < |ERROR_CODES| ==>
      IsErrorCode(ERROR_CODES[i]) && ERROR_CODES[i] & !ERROR_BIT == ERROR_NUMBERS[i]
    ensures forall i, j :: 0 <= i < |ERROR_CODES| && 0 <= j < |ERROR_CODES| && i != j ==>
      ERROR_CODES[i] != ERROR_CODES[j]
  {
    assert ERROR_CODES == [
      0x8000_0000_0000_0001, 0x8000_0000_0000_0002, 0x8000_0000_0000_0003, 0x8000_0000_0000_0004,
      0x8000_0000_0000_0005, 0x8000_0000_0000_000E, 0x8000_0000_0000_001A];
  }
}
