/**
 * Conventions shared by every wrapper of the FLI SDK binding: C# 32-bit
 * integers with unchecked (wrapping) arithmetic, the reply of a native entry
 * point (an integer status plus its out-values), and the rule that a
 * non-zero status becomes an error carrying the negated status.
 */
module Native {

  const INT32_MIN: int := -0x8000_0000
  const INT32_MAX: int := 0x7fff_ffff
  const TWO32: int := 0x1_0000_0000

  /** A C# `int`. */
  type int32 = x: int | INT32_MIN <= x <= INT32_MAX

  datatype Option<+T> = None | Some(value: T)

  /** What a wrapper can raise. */
  datatype Error =
    | StatusError(code: int32)   // Win32Exception(-status)
    | SizeMismatch               // InvalidOperationException("bytesgrabbed != sizeof(buff)")
    | LengthOverflow             // OverflowException: an array's Length above int.MaxValue

  /** A wrapper that returns nothing: it either returns or raises. */
  datatype Outcome = Pass | Fail(error: Error)

  /** A wrapper that returns a value or raises. */
  datatype Result<+T> = Ok(value: T) | Err(error: Error)

  /**
   * What a native entry point hands back: its integer status and the value
   * it wrote to its out-parameter (meaningless when the status is non-zero).
   */
  datatype Reply<+T> = Reply(status: int32, value: T)

  /** The int32 an unchecked C# computation with exact result `x` yields. */
  function Wrap32(x: int): (r: int32)
    ensures (r - x) % TWO32 == 0
    ensures INT32_MIN <= x <= INT32_MAX ==> r == x
  {
    var m := (x - INT32_MIN) % TWO32;
    assert x - INT32_MIN == TWO32 * ((x - INT32_MIN) / TWO32) + m;
    m + INT32_MIN
  }

  /** Unchecked C# negation `-x`: the int32 that adds up with `x` to 0 modulo 2^32. */
  function Negate32(x: int32): (r: int32)
    ensures (r + x) % TWO32 == 0
    ensures x != INT32_MIN ==> r as int == -x
  {
    Wrap32(-(x as int))
  }

  /** Negating twice gives back the original value, even for int.MinValue. */
  lemma NegateInvolution(x: int32)
    ensures Negate32(Negate32(x)) == x
  {
  }

  /**
   * The convention every wrapper follows after a native call:
   * status 0 returns normally; any other status raises an error whose code
   * is the negated status, from which the status can be recovered.
   */
  function Check(status: int32): (r: Outcome)
    ensures r.Pass? <==> status == 0
    ensures r.Fail? ==> r.error.StatusError? && Negate32(r.error.code) == status
  {
    NegateInvolution(status);
    if status == 0 then Pass else Fail(StatusError(Negate32(status)))
  }

  /** A wrapper with an out-value: the value when the status is 0, else `Check`'s error. */
  function Unwrap<T>(reply: Reply<T>): (r: Result<T>)
    ensures r.Ok? <==> reply.status == 0
    ensures r.Ok? ==> r.value == reply.value
    ensures r.Err? ==> Check(reply.status) == Fail(r.error)
  {
    match Check(reply.status)
    case Pass => Ok(reply.value)
    case Fail(e) => Err(e)
  }
}
