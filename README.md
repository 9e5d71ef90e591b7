# FliSharp acquisition core, modelled in Dafny

FliSharp is a C# binding for the FLI camera / filter-wheel / focuser SDK
(`libfli.dll`). Almost every member of its `FLI` class forwards its
arguments to one native entry point and turns a non-zero status into
`Win32Exception(-status)`. This project models the parts of `FLI` that hold
logic of their own:

- the shared "status 0 returns, anything else raises the negated status"
  convention, in C# 32-bit unchecked arithmetic (`native.dfy`, module `Native`);
- the download-readiness rule over the camera status word and the
  remaining exposure time, and one readiness poll (`readiness.dfy`, module `Readiness`);
- the parsing of device enumeration entries `file;model` and the end of
  the table at its first null entry (`device_list.dfy`, module `DeviceList`);
- the buffer-size and row-offset arithmetic of frame and row downloads,
  and the `VisibleWidth` cache (`transfer.dfy`, module `Transfer`);
- the handle lifecycle of `Close` and `Dispose` as values (`lifecycle.dfy`,
  module `Lifecycle`);
- the `FLI` object itself (`fli.dfy`, class `FliSharp.Fli`): fields `dev`,
  `disposed` and `visibleWidth`, and the methods `Open`, `Close`, `Dispose`,
  `GrabRow`, `GrabRowInto`, `GrabFrame`, `WaitForDownloadReady` and `List`.

Native calls are not executed. Each is replaced by its reply, a
`Reply(status, value)` given as a parameter; where the arguments the
wrapper passes matter (the buffer size given to `FLIGrabFrame`, the byte
offset and width given to `FLIGrabRow`, the length given to the
one-dimensional `FLIGrabRow`), the native call is a function parameter, so
the contracts say what it was asked for. `WaitForDownloadReady` takes the
replies of successive polls as a sequence and returns the sleep durations
it requested.

Behaviour of the code that the model keeps:

- an entry without `;` has no model name (`null`, here `None`);
- the sleep between polls is the remaining exposure time capped at 200 ms;
- the row width is cached from `GetArrayArea` (the full array area), never
  invalidated, and never compared with the buffer (that comparison is
  commented out);
- the poll loop has no timeout or cancellation;
- only `Close` checks for a closed handle; other calls on a closed handle
  go to the native library with handle -1.

## Model

| member | source | states |
|---|---|---|
| `Native.Check` | FliSharp.cs:324-326 | status 0 returns normally; any other status raises a status error whose code, negated again, is the status |
| `Native.Unwrap` | FliSharp.cs:578-585 | a wrapper with an out-value returns the value exactly when the status is 0, otherwise raises `Check`'s error |
| `Native.Negate32` | FliSharp.cs:326 | `-status` in C# int arithmetic: adds up with the status to 0 modulo 2^32, and is the ordinary negation except for int.MinValue |
| `Native.NegateInvolution` | FliSharp.cs:326 | negating twice gives the status back, for every int including int.MinValue, so the error code determines the status |
| `Native.Wrap32` | FliSharp.cs:683 | an unchecked C# int result is congruent to the exact result modulo 2^32, and equal to it when it fits |
| `Readiness.DownloadReady` | FliSharp.cs:1036-1037 | readiness from one status word and one remaining-exposure reading: the countdown decides for the UNKNOWN word, the DATA_READY bit for every other word |
| `Readiness.UnknownStatusFollowsCountdown` | FliSharp.cs:1036-1037 | with status CAMERA_STATUS_UNKNOWN (0xffffffff) the camera is ready exactly when the remaining exposure is 0 |
| `Readiness.KnownStatusFollowsDataReadyBit` | FliSharp.cs:1036-1037 | with any other status, ready exactly when the DATA_READY bit (0x80000000) is set, whatever the remaining exposure |
| `Readiness.BranchesAreNotOneBitTest` | FliSharp.cs:205-211 | UNKNOWN carries the DATA_READY bit yet is not ready with exposure remaining, so no single bit test equals the rule |
| `Readiness.PollReadiness` | FliSharp.cs:1031-1038 | a poll queries device status, then exposure status; the first failure raises its error; otherwise readiness follows the rule and the remaining time is reported |
| `Readiness.SleepFor` | FliSharp.cs:1049 | the sleep is the minimum of the remaining exposure and 200 ms |
| `FliSharp.Fli.WaitForDownloadReady` | FliSharp.cs:1043-1050 | returns only after a poll that finds the camera ready; each earlier poll succeeded and was not ready and is followed by exactly one sleep of min(remaining, 200) ms, never above 200; no sleep after the ready poll; a failing poll raises at once |
| `DeviceList.IndexOf` | FliSharp.cs:340 | -1 exactly when the character does not occur; otherwise a position holding it with no earlier occurrence |
| `DeviceList.ParseEntry` | FliSharp.cs:340-343 | the file name never contains `;`; no model name exactly when the entry has no `;`, and then the file name is the entry; otherwise file name + ";" + model name is the entry |
| `DeviceList.JoinParsed` | FliSharp.cs:340-343 | joining the parsed parts gives back the entry |
| `DeviceList.ParseJoined` | FliSharp.cs:340-343 | every device name whose file name has no `;` is what its joined entry parses to |
| `DeviceList.NullIndex` | FliSharp.cs:332-337 | the table's entry count: all entries before it are present and the entry at it is null |
| `DeviceList.NullIndexIgnoresTail` | FliSharp.cs:336-337 | entries after the first null one do not change where the table ends |
| `FliSharp.Fli.List` | FliSharp.cs:319-356 | a failing FLIList raises its error before any parsing; otherwise one parsed device name per entry, in order, up to the first null entry |
| `Transfer.FrameBufferSize` | FliSharp.cs:1121 | the size passed to FLIGrabFrame is elements x element size (1 or 2) when that fits an int, and congruent to it modulo 2^32 otherwise |
| `Transfer.FullFrameSize` | FliSharp.cs:1121 | a 3072 x 3072 ushort frame is requested as 18874368 bytes |
| `Transfer.FrameBufferSizeWraps` | FliSharp.cs:1121 | a ushort buffer of 2^30 elements is requested with the negative size int.MinValue |
| `FliSharp.Fli.GrabFrame` | FliSharp.cs:1094-1131 | a buffer with more than int.MaxValue elements raises LengthOverflow before the native call; otherwise a native error is raised first; a successful call that reports another byte count than the buffer size raises SizeMismatch, not a status error; it returns normally exactly when the native call succeeded with the buffer's exact byte count |
| `Transfer.RowBytes` | FliSharp.cs:716 | the row width in bytes is columns x element size when that fits an int, and congruent to it modulo 2^32 otherwise |
| `Transfer.RowOffset` | FliSharp.cs:720 | the offset added to the buffer address is row x columns x element size when row width and product fit an int, and congruent to it modulo 2^32 always |
| `Transfer.RowInsideFrame` | FliSharp.cs:716-720 | for a row index inside the buffer, the offset is row x width x element size, non-negative, and the row ends inside the buffer |
| `Transfer.RowsAreAdjacent` | FliSharp.cs:716-720 | row r + 1 starts where row r ends |
| `Transfer.RowPastEndOutsideFrame` | FliSharp.cs:712-720 | a row index at or past the row count (not checked by the source) addresses bytes at or past the end of the buffer |
| `FliSharp.Fli.GrabRowInto` | FliSharp.cs:712-729 | the native row download gets the row's byte offset and the width in pixels; it returns normally exactly when that call's status is 0; for an in-range row the offset is row x width x element size |
| `Transfer.FillWidthCache` | FliSharp.cs:678-684 | a filled cache is kept without a query; an unfilled one is filled with lr_x - ul_x of the array area (wrapped to an int), or stays unfilled when the area query raises |
| `Transfer.FilledCacheIsNeverRefreshed` | FliSharp.cs:678-684 | once filled, no later call changes the cached width, whatever area it would read |
| `Transfer.WidthOfMinValueLeavesCacheUnset` | FliSharp.cs:678-683 | an area width of exactly int.MinValue leaves the cache looking unfilled |
| `FliSharp.Fli.GrabRow` | FliSharp.cs:669-705 | the cache is filled first (a failing area query raises before any download); the row download is asked for the buffer's length; a filled cache is unchanged |
| `Lifecycle.Close` | FliSharp.cs:424-435 | returns normally exactly when the handle was already closed or the native close succeeded, and then the handle is closed; on failure it raises the negated status and changes nothing |
| `Lifecycle.Dispose` | FliSharp.cs:448-460 | a disposed object is left as it is; otherwise it closes, and is marked disposed exactly when Close did not raise |
| `Lifecycle.CloseTwiceIsNoOp` | FliSharp.cs:426-434 | after a successful Close, another Close changes nothing and raises nothing, whatever the native call would say |
| `Lifecycle.StepsKeepConsistency` | FliSharp.cs:424-460 | Close and Dispose keep "disposed implies closed" |
| `Lifecycle.RunKeepsConsistency` | FliSharp.cs:424-460 | "disposed implies closed" holds after any series of Close and Dispose calls |
| `Lifecycle.DisposedIsFinal` | FliSharp.cs:450-451 | once disposed, no series of Close and Dispose calls changes the object |
| `FliSharp.Fli.constructor` | FliSharp.cs:268-278 | a new object holds the opened handle, is not disposed and has an unfilled width cache |
| `FliSharp.Fli.Open` | FliSharp.cs:413-420 | a failing FLIOpen raises its error and yields no object; otherwise a fresh object holding the returned handle |
| `FliSharp.Fli.Close` | FliSharp.cs:424-435 | the object's new handle and the outcome are those of `Lifecycle.Close` |
| `FliSharp.Fli.Dispose` | FliSharp.cs:442-460 | the object's new handle, flag and outcome are those of `Lifecycle.Dispose` |

## Left out

- The other one-to-one wrappers (library version, debug level, model and serial strings, revisions, pixel size, array and visible areas, exposure time, frame type, binning, flushing, bit depth, temperature, cooler power, fan, shutter, filter and focuser motion, camera modes, vertical tables, video mode, TDI, DAC, LockDevice/UnlockDevice, USB bulk I/O, EEPROM and IO-port passthroughs): each only forwards its arguments to the native library; `Native.Check` and `Native.Unwrap` model the convention they all share.
- Temperature, cooler power and pixel size are floating-point values; not modelled.
- GCHandle pinning, pointer arithmetic and `Marshal.PtrToStructure`: the pixel data the native calls write into the buffer is not modelled; row offsets are byte offsets from the buffer's start.
- FliSharp.Fli.List: the table is given as the sequence of its entries (a null table pointer is the empty sequence, and the end of the sequence acts as the terminating null). The source steps from entry to entry by sizeof(int) = 4 bytes, which matches the pointer size only in a 32-bit process; the model reads the i-th entry. The final FLIFreeList call (whose status is ignored) is not modelled.
- FliSharp.Fli.WaitForDownloadReady: the source may poll forever; the model consumes a finite sequence of poll replies and reports `StillPolling` when they run out. `Thread.Sleep` itself and wall-clock time are not modelled: the requested durations are returned, including a negative remaining time passed through unchanged (which `Thread.Sleep` would treat as an infinite wait for -1 and reject otherwise).
- The parameterless `IsDownloadReady()` overload discards the remaining time and is otherwise `Readiness.PollReadiness`.
- The one-dimensional `GrabRow(byte[])` only forwards the buffer and its length; the byte variant of the 2-D `GrabRow` is `FliSharp.Fli.GrabRowInto` with 8-bit depth.
- The finalizer `~FLI`, `GC.SuppressFinalize` and the `disposing` argument of `Dispose(bool)` (its branch is empty); `FliSharp.Fli.Dispose` models `Dispose()`.
- `Open`'s device name and domain are only forwarded to FLIOpen; they are not parameters of the model.
- The commented-out APIs (CreateList, DeleteList, ListFirst, ListNext) and the commented-out buffer-length check in the one-dimensional ushort `GrabRow`.
- Program.cs, a console demonstration without logic of its own.
