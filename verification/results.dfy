/** Failure-compatible result types for the state-transition model.

    The source signals two kinds of failure: a deliberate `ValidationError`
    when a block or attestation breaks a protocol rule, and the ordinary
    runtime exceptions (an index past the end of a list, a missing key, a
    division by zero, a failed `assert`) that abort the computation just the
    same. Both are values here, so that no operation needs a precondition to
    rule them out.
 */
module Results {

  datatype Option<+T> = None | Some(value: T)

  /** Why a `ValidationError` was raised. */
  datatype Reason =
    | EmptyAttestations
    | NotProposerAttestation
    | SlotTooHigh
    | SlotTooLow
    | JustifiedSlotTooHigh
    | UnknownJustifiedBlock
    | JustifiedSlotMismatch
    | BitfieldLengthMismatch
    | NonZeroTrailingBits
    | BadAggregateSignature

  /** A runtime exception; `HelperError` stands for one raised inside a helper
      whose body is not part of this model. */
  datatype Exception = IndexError | KeyError | ZeroDivisionError | AssertionError | HelperError

  datatype Error = Rejected(reason: Reason) | Raised(exception: Exception)

  datatype Result<+T> = Success(value: T) | Failure(error: Error) {

    predicate IsFailure() {
      Failure?
    }

    function PropagateFailure<U>(): Result<U>
      requires Failure?
    {
      Failure(error)
    }

    function Extract(): T
      requires Success?
    {
      value
    }
  }

  /** A check that either passes or fails with an error. */
  datatype Outcome = Pass | Fail(error: Error)

  /** Python's floor division `a // b` for a non-negative divisor. */
  function FloorDiv(a: int, b: nat): (r: Result<int>)
    ensures r.Failure? <==> b == 0
    ensures r.Failure? ==> r.error == Raised(ZeroDivisionError)
    ensures r.Success? ==> r.value * b <= a < (r.value + 1) * b
  {
    if b == 0 then Failure(Raised(ZeroDivisionError)) else Success(a / b)
  }

  function Max(a: int, b: int): (m: int)
    ensures m >= a && m >= b
    ensures m == a || m == b
  {
    if a >= b then a else b
  }

  function Min(a: int, b: int): (m: int)
    ensures m <= a && m <= b
    ensures m == a || m == b
  {
    if a <= b then a else b
  }
}
