/**
 * The camera's download-readiness rule: one poll reads the device status
 * word and the remaining exposure time, and decides whether image data can
 * be downloaded.
 */
module Readiness {
  import opened Native

  /** The all-ones status word: the device status could not be determined. */
  const CAMERA_STATUS_UNKNOWN: bv32 := 0xffff_ffff
  /** The status bit saying that image data is waiting to be downloaded. */
  const CAMERA_DATA_READY: bv32 := 0x8000_0000
  /** The longest sleep between two polls, in milliseconds (polling at 5 Hz). */
  const POLL_CEILING_MS: int32 := 200

  /**
   * Readiness from one status word and one remaining-exposure reading.
   * With an UNKNOWN status only the countdown decides; otherwise only the
   * DATA_READY bit does.
   */
  predicate DownloadReady(status: bv32, remainingExposure: int32)
  {
    (status == CAMERA_STATUS_UNKNOWN && remainingExposure == 0) ||
    (status != CAMERA_STATUS_UNKNOWN && status & CAMERA_DATA_READY != 0)
  }

  /** An UNKNOWN status is ready exactly when the exposure countdown has reached zero. */
  lemma UnknownStatusFollowsCountdown(remainingExposure: int32)
    ensures DownloadReady(CAMERA_STATUS_UNKNOWN, remainingExposure) <==> remainingExposure == 0
  {
  }

  /** A known status is ready exactly when its DATA_READY bit is set, whatever the countdown says. */
  lemma KnownStatusFollowsDataReadyBit(status: bv32, remaining1: int32, remaining2: int32)
    requires status != CAMERA_STATUS_UNKNOWN
    ensures DownloadReady(status, remaining1) <==> status & CAMERA_DATA_READY != 0
    ensures DownloadReady(status, remaining1) == DownloadReady(status, remaining2)
  {
  }

  /**
   * The two branches cannot be merged into a single DATA_READY test: the
   * UNKNOWN word has that bit set, yet it is not ready while exposure time remains.
   */
  lemma BranchesAreNotOneBitTest()
    ensures CAMERA_STATUS_UNKNOWN & CAMERA_DATA_READY != 0
    ensures !DownloadReady(CAMERA_STATUS_UNKNOWN, 1)
    ensures !(forall s: bv32, r: int32 :: DownloadReady(s, r) <==> s & CAMERA_DATA_READY != 0)
  {
    assert !DownloadReady(CAMERA_STATUS_UNKNOWN, 1);
  }

  /** What one poll reports: readiness and the remaining exposure time it read. */
  datatype Readiness = Readiness(ready: bool, remainingExposure: int32)

  /**
   * The replies of the two native queries one poll makes, in order:
   * the device status, then the exposure status (remaining milliseconds).
   */
  datatype Poll = Poll(deviceStatus: Reply<bv32>, exposureStatus: Reply<int32>)

  /**
   * One poll. A failing device-status query raises before the exposure
   * status is consulted; a failing exposure-status query raises next;
   * otherwise the readiness rule decides.
   */
  function PollReadiness(p: Poll): (r: Result<Readiness>)
    ensures r.Ok? <==> p.deviceStatus.status == 0 && p.exposureStatus.status == 0
    ensures p.deviceStatus.status != 0 ==> r == Err(StatusError(Negate32(p.deviceStatus.status)))
    ensures p.deviceStatus.status == 0 && p.exposureStatus.status != 0 ==>
              r == Err(StatusError(Negate32(p.exposureStatus.status)))
    ensures r.Ok? ==> r.value.remainingExposure == p.exposureStatus.value
    ensures r.Ok? ==> (r.value.ready <==> DownloadReady(p.deviceStatus.value, p.exposureStatus.value))
  {
    match Unwrap(p.deviceStatus)
    case Err(e) => Err(e)
    case Ok(status) =>
      match Unwrap(p.exposureStatus)
      case Err(e) => Err(e)
      case Ok(remaining) => Ok(Readiness(DownloadReady(status, remaining), remaining))
  }

  /** A poll that succeeded and found the camera not yet ready. */
  predicate NotReadyYet(p: Poll)
  {
    PollReadiness(p).Ok? && !PollReadiness(p).value.ready
  }

  /** The sleep requested after a not-ready poll: the remaining time, capped at the ceiling. */
  function SleepFor(remainingExposure: int32): (ms: int32)
    ensures ms <= POLL_CEILING_MS && ms <= remainingExposure
    ensures ms == remainingExposure || ms == POLL_CEILING_MS
  {
    if remainingExposure > POLL_CEILING_MS then POLL_CEILING_MS else remainingExposure
  }
}
