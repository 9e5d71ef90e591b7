/**
 * The device handle's lifecycle as values: the handle field `dev` (with
 * INVALID_DEVICE meaning closed) and the `disposed` flag, and what Close
 * and Dispose do to them given the native close call's status.
 */
module Lifecycle {
  import opened Native

  /** The handle value of a closed (or never opened) device. */
  const INVALID_DEVICE: int32 := -1

  datatype Handle = Handle(dev: int32, disposed: bool)

  /** The state after a call and whether the call raised. */
  datatype Step = Step(after: Handle, outcome: Outcome)

  /** A disposed object has no open device. */
  predicate Consistent(h: Handle)
  {
    h.disposed ==> h.dev == INVALID_DEVICE
  }

  /**
   * Close: nothing to do on a closed handle (the native call is not made);
   * otherwise the native close decides: success forgets the handle, failure
   * raises and keeps it.
   */
  function Close(h: Handle, closeStatus: int32): (s: Step)
    ensures s.after.disposed == h.disposed
    ensures s.outcome.Pass? <==> h.dev == INVALID_DEVICE || closeStatus == 0
    ensures s.outcome.Pass? ==> s.after.dev == INVALID_DEVICE
    ensures s.outcome.Fail? ==> s.after == h && s.outcome == Check(closeStatus)
  {
    if h.dev == INVALID_DEVICE then Step(h, Pass)
    else if closeStatus != 0 then Step(h, Check(closeStatus))
    else Step(h.(dev := INVALID_DEVICE), Pass)
  }

  /**
   * Dispose: once disposed, nothing happens; otherwise Close runs, and only
   * if it returns without raising is the object marked disposed.
   */
  function Dispose(h: Handle, closeStatus: int32): (s: Step)
    ensures h.disposed ==> s == Step(h, Pass)
    ensures !h.disposed ==> s.outcome == Close(h, closeStatus).outcome
    ensures !h.disposed ==> s.after.dev == Close(h, closeStatus).after.dev
    ensures s.after.disposed <==> h.disposed || s.outcome.Pass?
  {
    if h.disposed then Step(h, Pass)
    else
      var c := Close(h, closeStatus);
      if c.outcome.Fail? then c
      else Step(c.after.(disposed := true), Pass)
  }

  /** A successful Close makes every later Close a no-op, whatever the native call would say. */
  lemma CloseTwiceIsNoOp(h: Handle, first: int32, second: int32)
    requires Close(h, first).outcome.Pass?
    ensures Close(Close(h, first).after, second) == Step(Close(h, first).after, Pass)
  {
  }

  /** Close and Dispose keep a consistent handle consistent. */
  lemma StepsKeepConsistency(h: Handle, closeStatus: int32)
    requires Consistent(h)
    ensures Consistent(Close(h, closeStatus).after)
    ensures Consistent(Dispose(h, closeStatus).after)
  {
  }

  /** A call on the handle, with the status its native close would return. */
  datatype Call = CloseCall(closeStatus: int32) | DisposeCall(disposeStatus: int32)

  /** One call on the handle. */
  function Apply(h: Handle, call: Call): Step
  {
    match call
    case CloseCall(st) => Close(h, st)
    case DisposeCall(st) => Dispose(h, st)
  }

  /** The handle after a series of calls (raised errors are caught by the caller and ignored). */
  function Run(h: Handle, calls: seq<Call>): Handle
    decreases |calls|
  {
    if |calls| == 0 then h
    else Run(Apply(h, calls[0]).after, calls[1..])
  }

  /** Consistency holds after any series of calls. */
  lemma {:induction false} RunKeepsConsistency(h: Handle, calls: seq<Call>)
    requires Consistent(h)
    ensures Consistent(Run(h, calls))
    decreases |calls|
  {
    if |calls| > 0 {
      match calls[0] {
        case CloseCall(st) => StepsKeepConsistency(h, st);
        case DisposeCall(st) => StepsKeepConsistency(h, st);
      }
      RunKeepsConsistency(Apply(h, calls[0]).after, calls[1..]);
    }
  }

  /** Dispose runs at most once: after it, no call changes anything. */
  lemma {:induction false} DisposedIsFinal(h: Handle, calls: seq<Call>)
    requires Consistent(h) && h.disposed
    ensures Run(h, calls) == h
    decreases |calls|
  {
    if |calls| > 0 {
      DisposedIsFinal(h, calls[1..]);
    }
  }
}
