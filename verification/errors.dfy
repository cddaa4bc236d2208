/**
 The failures of the account operations: one per string resource the
 server reports through its error channel, with the status code it
 returns alongside.
 */
module Errors {

  datatype Error =
    | NonPositiveSpice   // eat or sell with fewer than one unit
    | NoHarvester        // mine with fewer than one harvester
    | NoSpice            // eat or sell more spice than held
    | NoEnergy           // not enough energy for the mining cost
    | NoSolaris          // not enough solaris for the mining cost
    | Overflow           // a product or sum exceeds the 64-bit range

  /** The returned status: `S_OK`, `E_INVALIDARG` or `E_FAIL`. */
  datatype HResult = HrOk | HrInvalidArg | HrFail

  /** The source identifier of every error record. */
  const ErrorSource: string := "Arrakis.Arrakeener.1"

  datatype ErrorRecord = ErrorRecord(source: string, description: string)

  function Message(e: Error): string {
    match e
    case NonPositiveSpice => "Spice units must be greater than zero"
    case NoHarvester => "Cannot mine spice without a harvester"
    case NoSpice => "Insufficient spice"
    case NoEnergy => "No energy"
    case NoSolaris => "No solaris"
    case Overflow => "Integer overflow"
  }

  /** The record a caller retrieves right after a failed call. */
  function Record(e: Error): (r: ErrorRecord)
    ensures r.source == ErrorSource
    ensures forall e' :: e' != e ==> Message(e') != r.description
  {
    ErrorRecord(ErrorSource, Message(e))
  }

  /** Argument errors return `E_INVALIDARG`; every other failure `E_FAIL`; none `S_OK`. */
  function Code(e: Error): (h: HResult)
    ensures h != HrOk
    ensures h == HrInvalidArg <==> e == NonPositiveSpice || e == NoHarvester
  {
    if e == NonPositiveSpice || e == NoHarvester then HrInvalidArg else HrFail
  }
}
