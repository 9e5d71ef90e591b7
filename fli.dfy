/**
 * The FLI device object: its handle lifecycle, the lazily filled row-width
 * cache, frame and row downloads, the download-readiness poll loop and the
 * device enumeration. Every native entry point is replaced by its reply,
 * given as a parameter (a function of the arguments where those matter).
 */
module FliSharp {
  import opened Native
  import opened Readiness
  import opened DeviceList
  import opened Transfer
  import Lifecycle

  /** How WaitForDownloadReady ends: it returns, it raises, or the given polls ran out first. */
  datatype WaitOutcome = Returned | Raised(error: Error) | StillPolling

  class Fli {
    /** The native device handle, INVALID_DEVICE once closed. */
    var dev: int32
    /** Set once Dispose has closed the device. */
    var disposed: bool
    /** Row width cached by the one-dimensional GrabRow; WIDTH_UNSET until filled. */
    var visibleWidth: int32

    ghost function State(): Lifecycle.Handle
      reads this
    {
      Lifecycle.Handle(dev, disposed)
    }

    ghost predicate Valid()
      reads this
    {
      Lifecycle.Consistent(State())
    }

    /** The object as the native open call left it: the field initialisers, then the handle. */
    constructor (handle: int32)
      ensures dev == handle && !disposed && visibleWidth == WIDTH_UNSET
      ensures Valid()
    {
      dev := handle;
      disposed := false;
      visibleWidth := WIDTH_UNSET;
    }

    /** Opening a device: the native open's handle, or its error (then there is no object). */
    static method Open(reply: Reply<int32>) returns (r: Result<Fli>)
      ensures r.Ok? <==> reply.status == 0
      ensures r.Err? ==> Fail(r.error) == Check(reply.status)
      ensures r.Ok? ==> fresh(r.value) && r.value.Valid()
      ensures r.Ok? ==> r.value.dev == reply.value && !r.value.disposed && r.value.visibleWidth == WIDTH_UNSET
    {
      if reply.status != 0 {
        return Err(Check(reply.status).error);
      }
      var f := new Fli(reply.value);
      r := Ok(f);
    }

    /**
     * Close: a no-op on a closed handle; otherwise the native close's status
     * decides whether the handle is forgotten or an error is raised.
     */
    method Close(closeStatus: int32) returns (r: Outcome)
      requires Valid()
      modifies this`dev
      ensures Valid()
      ensures Lifecycle.Step(State(), r) == Lifecycle.Close(old(State()), closeStatus)
    {
      if dev == Lifecycle.INVALID_DEVICE {
        return Pass;
      }
      if closeStatus != 0 {
        return Check(closeStatus);
      }
      dev := Lifecycle.INVALID_DEVICE;
      r := Pass;
    }

    /** Dispose: at most once; marks the object disposed only after Close returned normally. */
    method Dispose(closeStatus: int32) returns (r: Outcome)
      requires Valid()
      modifies this`dev, this`disposed
      ensures Valid()
      ensures Lifecycle.Step(State(), r) == Lifecycle.Dispose(old(State()), closeStatus)
    {
      if disposed {
        return Pass;
      }
      r := Close(closeStatus);
      if r.Fail? {
        return;
      }
      disposed := true;
    }

    /**
     * Downloads one row into a one-dimensional ushort buffer of `buffLength`
     * elements. First the width cache is filled from the array area if it
     * is still unfilled (a failing area query raises before any download);
     * then the native row download is asked for `buffLength` pixels. The
     * cached width is never compared with the buffer.
     */
    method GrabRow(buffLength: int32, getArrayArea: Reply<Area>, grabRow: int32 -> int32) returns (r: Outcome)
      requires 0 <= buffLength
      modifies this`visibleWidth
      ensures old(visibleWidth) != WIDTH_UNSET ==> visibleWidth == old(visibleWidth)
      ensures var filled := FillWidthCache(old(visibleWidth), getArrayArea);
              visibleWidth == (if filled.Ok? then filled.value else old(visibleWidth)) &&
              r == (if filled.Err? then Fail(filled.error) else Check(grabRow(buffLength)))
    {
      if visibleWidth == WIDTH_UNSET {
        var area := Unwrap(getArrayArea);
        if area.Err? {
          return Fail(area.error);
        }
        visibleWidth := Wrap32(area.value.lrX - area.value.ulX);
      }
      r := Check(grabRow(buffLength));
    }

    /**
     * Downloads row `row` of a 2-D buffer of `rows` x `cols` elements: the
     * native row download gets the byte offset of that row and the width
     * `cols` in pixels. `row` is not range-checked.
     */
    method GrabRowInto(depth: PixelDepth, rows: nat, cols: nat, row: int32, grabRow: (int32, int32) -> int32)
      returns (r: Outcome)
      requires rows <= INT32_MAX && cols <= INT32_MAX
      ensures r.Pass? <==> grabRow(RowOffset(depth, cols, row), cols) == 0
      ensures r.Fail? ==> r == Check(grabRow(RowOffset(depth, cols, row), cols))
      ensures 0 <= row < rows && rows * cols * BytesPerPixel(depth) <= INT32_MAX ==>
                RowOffset(depth, cols, row) == row * cols * BytesPerPixel(depth)
    {
      if 0 <= row < rows && rows * cols * BytesPerPixel(depth) <= INT32_MAX {
        RowInsideFrame(depth, rows, cols, row);
      }
      r := Check(grabRow(RowOffset(depth, cols, row), cols));
    }

    /**
     * Downloads a whole frame into a 2-D buffer of `rows` x `cols` elements.
     * A buffer with more elements than an int holds raises LengthOverflow
     * when its length is read, before the native call. Otherwise the native
     * call is given the buffer's byte size; its error is raised first; a
     * successful call that transferred any other byte count raises
     * SizeMismatch.
     */
    method GrabFrame(depth: PixelDepth, rows: nat, cols: nat, grabFrame: int32 -> Reply<int32>)
      returns (r: Outcome)
      ensures rows * cols > INT32_MAX ==> r == Fail(LengthOverflow)
      ensures rows * cols <= INT32_MAX ==>
                var size := FrameBufferSize(depth, rows * cols);
                var reply := grabFrame(size);
                (reply.status != 0 ==> r == Check(reply.status)) &&
                (reply.status == 0 && reply.value != size ==> r == Fail(SizeMismatch)) &&
                (reply.status == 0 && reply.value == size ==> r == Pass)
      ensures rows * cols * BytesPerPixel(depth) <= INT32_MAX ==>
                (r == Pass <==> grabFrame(rows * cols * BytesPerPixel(depth)) == Reply(0, rows * cols * BytesPerPixel(depth)))
    {
      if rows * cols > INT32_MAX {
        return Fail(LengthOverflow);
      }
      var size := FrameBufferSize(depth, rows * cols);
      var reply := grabFrame(size);
      if reply.status != 0 {
        return Check(reply.status);
      }
      if size != reply.value {
        return Fail(SizeMismatch);
      }
      r := Pass;
    }

    /**
     * Polls readiness until a poll finds the camera ready, sleeping after
     * each not-ready poll for the remaining exposure time capped at 200 ms.
     * `polls` are the native replies of successive polls; `sleeps` are the
     * requested sleep durations; `used` is how many polls were made.
     */
    method WaitForDownloadReady(polls: seq<Poll>) returns (outcome: WaitOutcome, sleeps: seq<int32>, used: nat)
      ensures used <= |polls|
      ensures outcome.StillPolling? ==> used == |polls| == |sleeps|
      ensures !outcome.StillPolling? ==> 1 <= used && |sleeps| == used - 1
      ensures outcome.Returned? ==> PollReadiness(polls[used - 1]).Ok? && PollReadiness(polls[used - 1]).value.ready
      ensures outcome.Raised? ==> PollReadiness(polls[used - 1]) == Err(outcome.error)
      ensures forall k :: 0 <= k < |sleeps| ==>
                NotReadyYet(polls[k]) && sleeps[k] == SleepFor(PollReadiness(polls[k]).value.remainingExposure)
      ensures forall k :: 0 <= k < |sleeps| ==> sleeps[k] <= POLL_CEILING_MS
    {
      sleeps := [];
      used := 0;
      while used < |polls|
        invariant used <= |polls| && |sleeps| == used
        invariant forall k :: 0 <= k < used ==>
                    NotReadyYet(polls[k]) && sleeps[k] == SleepFor(PollReadiness(polls[k]).value.remainingExposure)
        decreases |polls| - used
      {
        var poll := PollReadiness(polls[used]);
        used := used + 1;
        if poll.Err? {
          return Raised(poll.error), sleeps, used;
        }
        if poll.value.ready {
          return Returned, sleeps, used;
        }
        sleeps := sleeps + [SleepFor(poll.value.remainingExposure)];
      }
      outcome := StillPolling;
    }

    /**
     * Enumerates devices: a failing native list call raises before any
     * parsing; otherwise one device name per entry, in order, up to the
     * first null entry.
     */
    static method List(reply: Reply<seq<Option<string>>>) returns (r: Result<seq<DeviceName>>)
      ensures reply.status != 0 ==> r.Err? && Fail(r.error) == Check(reply.status)
      ensures reply.status == 0 ==> r.Ok?
      ensures r.Ok? ==> |r.value| == NullIndex(reply.value)
      ensures r.Ok? ==> forall i :: 0 <= i < |r.value| ==>
                reply.value[i].Some? && r.value[i] == ParseEntry(reply.value[i].value)
    {
      if reply.status != 0 {
        return Err(Check(reply.status).error);
      }
      var names := reply.value;
      var list: seq<DeviceName> := [];
      var i := 0;
      while i < |names|
        invariant i <= |names| && |list| == i
        invariant forall k :: 0 <= k < i ==> names[k].Some? && list[k] == ParseEntry(names[k].value)
        decreases |names| - i
      {
        if names[i].None? {
          break;
        }
        list := list + [ParseEntry(names[i].value)];
        i := i + 1;
      }
      r := Ok(list);
    }
  }

  /** A countdown seen through an UNKNOWN status: one capped sleep, then the ready poll ends the wait. */
  method CountdownScenario(cam: Fli)
  {
    var polls := [Poll(Reply(0, CAMERA_STATUS_UNKNOWN), Reply(0, 250)),
                  Poll(Reply(0, CAMERA_STATUS_UNKNOWN), Reply(0, 0))];
    var outcome, sleeps, used := cam.WaitForDownloadReady(polls);
    assert !NotReadyYet(polls[1]);
    assert used == 2;
    assert outcome == Returned && sleeps == [200];
  }

  /** An enumeration with and without model names, ending at a null entry. */
  method ListScenario()
  {
    var first := DeviceName("usb:0", Some("ModelX"));
    var second := DeviceName("usb:1", None);
    ParseJoined(first);
    ParseJoined(second);
    var names := [Some(JoinEntry(first)), Some(JoinEntry(second)), None, Some("ignored")];
    var r := Fli.List(Reply(0, names));
    assert names[2].None?;
    assert r.Ok? && r.value == [first, second];
    assert JoinEntry(first) == "usb:0;ModelX" && JoinEntry(second) == "usb:1";
  }
}
