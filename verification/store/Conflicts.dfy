/** Conflict detection. */
module Conflicts {
  import opened Model
  import opened Tables

  /** The first suspicious condition an event meets against the canonical row. */
  function DetectSuspiciousJump(canon: Progress, ev: EventRow): Option<JumpReason> {
    if canon.percent.Some? && ev.percent.Some? && canon.percent.value - ev.percent.value > 0.10
       && ev.readStatus != Abandoned && ev.readStatus != NotStarted
    then Some(BackwardJump(canon.percent.value, ev.percent.value))
    else if ev.source == GoodreadsBridge && ev.readStatus == Finished
            && canon.percent.Some? && canon.percent.value < 0.85
    then Some(GoodreadsFinishedEarly(canon.percent.value))
    else if canon.totalPages.Some? && ev.totalPages.Some?
            && canon.totalPages.value != ev.totalPages.value && canon.totalPages.value > 0
    then Some(PageCountChange(canon.totalPages.value, ev.totalPages.value))
    else if 0 < ev.confidence < 60
    then Some(LowConfidence(ev.confidence))
    else if canon.locatorType != NoLocation && ev.locatorType != NoLocation
            && canon.locatorType != ev.locatorType
            && canon.locatorType != Raw && ev.locatorType != Raw
    then Some(LocatorTypeChange(canon.locatorType, ev.locatorType))
    else None
  }

  datatype AutoResolveParams = AutoResolveParams(
    trustworthyTimestamps: bool, confidenceHigh: bool, plausibleMovement: bool,
    writebackEnabled: bool, noUserPin: bool)

  predicate CanAutoResolve(p: AutoResolveParams) {
    p.trustworthyTimestamps && p.confidenceHigh && p.plausibleMovement && p.writebackEnabled && p.noUserPin
  }
}
