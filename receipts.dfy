/**
 * The decision part of the suite's `isSuccessful` and `isGasExhausted`,
 * applied to a receipt that has already been fetched.
 */
module Receipts {

  newtype uint64 = x: int | 0 <= x < 0x1_0000_0000_0000_0000

  /** go-ethereum's receipt status codes. */
  const ReceiptStatusFailed: uint64 := 0
  const ReceiptStatusSuccessful: uint64 := 1

  /** The two receipt fields the helpers read. */
  datatype Receipt = Receipt(status: uint64, gasUsed: uint64)

  /** `isSuccessful`: the status is exactly the "successful" code. */
  predicate IsSuccessful(r: Receipt) {
    r.status == ReceiptStatusSuccessful
  }

  /**
   * `isGasExhausted`: a successful receipt is never exhausted; a failed one is
   * exhausted exactly when it used the whole gas limit, no more and no less.
   */
  predicate IsGasExhausted(r: Receipt, gasLimit: uint64) {
    if r.status == ReceiptStatusSuccessful then false
    else r.gasUsed == gasLimit
  }

  /** The three outcomes the two helpers distinguish between them. */
  datatype Outcome = Success | Reverted | GasExhausted

  /** The outcome the suite reads off a receipt with the two helpers. */
  function Classify(r: Receipt, gasLimit: uint64): (o: Outcome)
    ensures o == Success <==> IsSuccessful(r)
    ensures o == GasExhausted <==> IsGasExhausted(r, gasLimit)
    ensures o == Reverted <==> !IsSuccessful(r) && r.gasUsed != gasLimit
  {
    if IsSuccessful(r) then Success
    else if IsGasExhausted(r, gasLimit) then GasExhausted
    else Reverted
  }

  /**
   * Status dominates: a receipt with the "successful" code is neither
   * exhausted nor reverted, whatever gas it used.
   */
  lemma SuccessDominates(r: Receipt, gasLimit: uint64)
    requires r.status == ReceiptStatusSuccessful
    ensures IsSuccessful(r)
    ensures !IsGasExhausted(r, gasLimit)
    ensures Classify(r, gasLimit) == Success
  {
  }

  /**
   * Any other status code is a failure, and on failure the comparison is
   * strict equality: using less gas than the limit, or more, reads as a
   * revert, not as exhaustion.
   */
  lemma FailureBoundaries(status: uint64, gasUsed: uint64, gasLimit: uint64)
    requires status != ReceiptStatusSuccessful
    ensures !IsSuccessful(Receipt(status, gasUsed))
    ensures IsGasExhausted(Receipt(status, gasUsed), gasLimit) <==> gasUsed == gasLimit
    ensures gasUsed < gasLimit ==> Classify(Receipt(status, gasUsed), gasLimit) == Reverted
    ensures gasUsed > gasLimit ==> Classify(Receipt(status, gasUsed), gasLimit) == Reverted
  {
  }
}
