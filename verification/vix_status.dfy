/**
 * The status value every entry point reports through: a fixed set of
 * 32-bit status codes, of which 0 alone means success, paired with a
 * borrowed message string.
 */
module VixStatus {
  import opened TextBytes
  import opened VixTypes

  /** `int32_t`. */
  newtype int32 = x: int | -0x8000_0000 <= x < 0x8000_0000

  /** `enum vix_status_code`. */
  datatype StatusCode = Ok | Error | InvalidArg | BufferTooSmall | NotSupported
  {
    /** The enumerator's fixed numeric value. */
    function Value(): (v: int32)
      ensures 0 <= v <= 4
      ensures v == 0 <==> this == Ok
    {
      match this
      case Ok => 0
      case Error => 1
      case InvalidArg => 2
      case BufferTooSmall => 3
      case NotSupported => 4
    }
  }

  /** The enumerator a raw code stands for, if any. */
  function CodeOf(v: int32): (c: Option<StatusCode>)
    ensures c.Some? <==> 0 <= v <= 4
    ensures c.Some? ==> c.value.Value() == v
  {
    if v == 0 then Some(Ok)
    else if v == 1 then Some(Error)
    else if v == 2 then Some(InvalidArg)
    else if v == 3 then Some(BufferTooSmall)
    else if v == 4 then Some(NotSupported)
    else None
  }

  /** Reading a code back gives the enumerator it came from. */
  lemma CodeOfValue(c: StatusCode)
    ensures CodeOf(c.Value()) == Some(c)
  {
    match c
    case Ok =>
    case Error =>
    case InvalidArg =>
    case BufferTooSmall =>
    case NotSupported =>
  }

  /** The five codes are pairwise distinct. */
  lemma ValuesDistinct(a: StatusCode, b: StatusCode)
    ensures a.Value() == b.Value() <==> a == b
  {
    CodeOfValue(a);
    CodeOfValue(b);
  }

  /** `vix_status`: a code and a borrowed message. */
  datatype Status = Status(code: int32, message: VixStr)

  /** A status reports success exactly when its code is 0. */
  predicate IsOk(st: Status)
  {
    st.code == 0
  }

  /** `vix_status_ok()`: code OK with a null, empty message. */
  function StatusOk(): (st: Status)
    ensures IsOk(st) && CodeOf(st.code) == Some(Ok)
    ensures st.message.ptr == Null && st.message.len == 0
    ensures InBounds(st.message) && ViewBytes(st.message) == []
  {
    Status(Ok.Value(), VixStr(Null, 0))
  }
}
