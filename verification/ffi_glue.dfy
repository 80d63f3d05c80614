/**
 * What every entry point of the native libraries shares: string literals
 * turned into `vix_str` views, the status out-parameter that may be null,
 * and the caller-allocated output buffer protocol.
 *
 * Protocol of an entry point `f(in_ptr, in_len, out_ptr, out_cap, out_len, out_status)`:
 * the return value is 0 on success and non-zero on error, with the status
 * filled in; when the result does not fit in `out_cap` bytes the call
 * reports the size it needs through `out_len` and writes nothing; when it
 * fits, the result goes to `out_ptr[0..size)` and `*out_len = size`.
 */
module FfiGlue {
  import opened TextBytes
  import opened VixTypes
  import opened VixStatus

  /** A `size_t` the caller lends through a pointer (`size_t *out_len`). */
  class SizeCell {
    var value: nat

    constructor(v: nat)
      ensures value == v
    {
      value := v;
    }
  }

  /** A `vix_status` the caller lends through a pointer (`vix_status *out_status`). */
  class StatusCell {
    var status: Status

    constructor(st: Status)
      ensures status == st
    {
      status := st;
    }
  }

  /** `strlen`: the position of the first NUL byte. */
  function StrLen(b: seq<byte>): (n: nat)
    requires 0 in b
    ensures n < |b| && b[n] == 0
    ensures forall i | 0 <= i < n :: b[i] != 0
  {
    if b[0] == 0 then 0
    else
      assert 0 in b[1..];
      StrLen(b[1..]) + 1
  }

  /** The bytes a C compiler stores for the literal `text`: its UTF-8 encoding and a NUL. */
  function Literal(text: string): seq<byte>
    requires IsAscii(text)
  {
    AsciiBytes(text) + [0]
  }

  /**
   * `make_str_lit`: a view of a literal's bytes, not counting the NUL. A
   * literal without an embedded NUL is seen whole; `MakeStrLitIsStrLen`
   * shows the length is the one `strlen` finds.
   */
  function MakeStrLit(text: string): (s: VixStr)
    requires IsAscii(text) && NoNul(text)
    ensures s.ptr == Static(Literal(text))
    ensures InBounds(s) && s.len == |text|
    ensures ViewBytes(s) == AsciiBytes(text)
  {
    var b := Literal(text);
    assert b[..|text|] == AsciiBytes(text);
    VixStr(Static(b), |text|)
  }

  /** The length `make_str_lit` records is where `strlen` stops. */
  lemma MakeStrLitIsStrLen(text: string)
    requires IsAscii(text) && NoNul(text)
    ensures 0 in Literal(text) && MakeStrLit(text).len == StrLen(Literal(text))
  {
  }

  /** The fixed messages the entry points report, each a string literal. */
  datatype Message = OutLenNull | InPtrNull | OutPtrNull | OutputTooSmall | InvalidBase64
  {
    function Text(): string
    {
      match this
      case OutLenNull => "out_len is null"
      case InPtrNull => "in_ptr is null but in_len != 0"
      case OutPtrNull => "out_ptr is null but out_cap != 0"
      case OutputTooSmall => "output buffer too small"
      case InvalidBase64 => "invalid base64 input"
    }
  }

  // Local helpers of MessageIsPlain: one literal each, so that each proof
  // stays small.

  lemma OutLenNullIsPlain()
    ensures Plain(OutLenNull.Text())
  {
  }

  lemma InPtrNullIsPlain()
    ensures Plain(InPtrNull.Text())
  {
  }

  lemma OutPtrNullIsPlain()
    ensures Plain(OutPtrNull.Text())
  {
  }

  lemma OutputTooSmallIsPlain()
    ensures Plain(OutputTooSmall.Text())
  {
  }

  lemma InvalidBase64IsPlain()
    ensures Plain(InvalidBase64.Text())
  {
  }

  /** Every message is 7-bit ASCII without an embedded NUL. */
  lemma MessageIsPlain(m: Message)
    ensures IsAscii(m.Text()) && NoNul(m.Text())
  {
    match m {
      case OutLenNull => OutLenNullIsPlain();
      case InPtrNull => InPtrNullIsPlain();
      case OutPtrNull => OutPtrNullIsPlain();
      case OutputTooSmall => OutputTooSmallIsPlain();
      case InvalidBase64 => InvalidBase64IsPlain();
    }
    PlainIsAsciiNoNul(m.Text());
  }

  /** The status `set_error` stores: the code and a view of the message literal. */
  function ErrorStatus(code: StatusCode, m: Message): (st: Status)
    ensures !IsOk(st) <==> code != Ok
    ensures CodeOf(st.code) == Some(code)
    ensures IsAscii(m.Text()) && InBounds(st.message) && ViewBytes(st.message) == AsciiBytes(m.Text())
  {
    MessageIsPlain(m);
    Status(code.Value(), MakeStrLit(m.Text()))
  }

  /** `set_ok`: reset the status to OK, unless the caller passed no status. */
  method SetOk(st: StatusCell?)
    modifies st
    ensures st != null ==> st.status == StatusOk()
  {
    if st != null {
      st.status := StatusOk();
    }
  }

  /** `set_error`: store a code and message, unless the caller passed no status. */
  method SetError(st: StatusCell?, code: StatusCode, m: Message)
    modifies st
    ensures st != null ==> st.status == ErrorStatus(code, m)
  {
    if st != null {
      st.status := ErrorStatus(code, m);
    }
  }

  /** `memcpy(dst, src.data(), src.size())` from a separate buffer. */
  method CopyOut(dst: array<byte>, src: seq<byte>)
    requires |src| <= dst.Length
    modifies dst
    ensures dst[..|src|] == src
    ensures dst[|src|..] == old(dst[|src|..])
  {
    var i := 0;
    while i < |src|
      invariant i <= |src|
      invariant dst[..i] == src[..i]
      invariant dst[i..] == old(dst[i..])
    {
      dst[i] := src[i];
      i := i + 1;
    }
  }

  /** The arguments of a buffer-protocol call, as the callee sees them. */
  datatype Args = Args(inPresent: bool, inLen: nat, input: seq<byte>,
                       outPresent: bool, outCap: nat, outLenPresent: bool)

  /** The input bytes agree with the pointer and length they were read through. */
  predicate Consistent(a: Args)
  {
    && (a.inPresent ==> |a.input| == a.inLen)
    && (!a.inPresent ==> a.input == [])
  }

  /** No argument check fails: `out_len` is given, and each null pointer comes with a zero size. */
  predicate ArgsAccepted(a: Args)
  {
    a.outLenPresent && (a.inPresent || a.inLen == 0) && (a.outPresent || a.outCap == 0)
  }

  /** One argument check: whether it fails, and the message it reports if it does. */
  datatype Check = Check(fails: bool, msg: Message)

  /** The message of the first failing check, in the order the checks are made. */
  function FirstFailure(checks: seq<Check>): (m: Option<Message>)
    ensures m.None? <==> forall i | 0 <= i < |checks| :: !checks[i].fails
    ensures m.Some? ==> exists i | 0 <= i < |checks| :: checks[i].fails && checks[i].msg == m.value
                                    && forall j | 0 <= j < i :: !checks[j].fails
  {
    if checks == [] then None
    else if checks[0].fails then Some(checks[0].msg)
    else
      var m := FirstFailure(checks[1..]);
      if m.Some? then
        var i :| 0 <= i < |checks[1..]| && checks[1..][i].fails && checks[1..][i].msg == m.value
                 && forall j | 0 <= j < i :: !checks[1..][j].fails;
        assert checks[i + 1] == checks[1..][i];
        assert forall j | 0 <= j < i + 1 :: !checks[j].fails by {
          forall j | 0 <= j < i + 1
            ensures !checks[j].fails
          {
            if j > 0 {
              assert checks[j] == checks[1..][j - 1];
            }
          }
        }
        m
      else
        assert forall i | 0 <= i < |checks| :: !checks[i].fails by {
          forall i | 0 <= i < |checks|
            ensures !checks[i].fails
          {
            if i > 0 {
              assert checks[i] == checks[1..][i - 1];
            }
          }
        }
        m
  }

  /** What a call leaves behind: the return value, the status, what it stores in `*out_len` (if anything) and the bytes it writes at the start of `out_ptr`. */
  datatype Outcome = Outcome(rc: int, status: Status, reportedLen: Option<nat>, payload: seq<byte>)

  /** The declared return contract: 0 exactly on success; an error writes no output; success reports the size it wrote. */
  predicate Conforms(o: Outcome)
  {
    && (o.rc == 0 || o.rc == 1)
    && (o.rc == 0 <==> IsOk(o.status))
    && (o.rc != 0 ==> o.payload == [])
    && (o.rc == 0 ==> o.reportedLen == Some(|o.payload|))
  }

  /** An argument the callee refuses: INVALID_ARG, return 1, nothing written. */
  function Rejected(m: Message): (o: Outcome)
    ensures Conforms(o) && o.rc == 1 && o.reportedLen == None
    ensures CodeOf(o.status.code) == Some(InvalidArg)
  {
    Outcome(1, ErrorStatus(InvalidArg, m), None, [])
  }

  /** Handing a computed result to a caller-allocated buffer of `outCap` bytes. */
  function Deliver(outCap: nat, result: seq<byte>): (o: Outcome)
    ensures Conforms(o)
    ensures o.reportedLen == Some(|result|)
    ensures o.rc == 0 <==> |result| <= outCap
    ensures o.rc == 0 ==> o.payload == result && o.status == StatusOk()
    ensures o.rc != 0 ==> o.status == ErrorStatus(BufferTooSmall, OutputTooSmall)
  {
    if outCap < |result| then
      Outcome(1, ErrorStatus(BufferTooSmall, OutputTooSmall), Some(|result|), [])
    else
      Outcome(0, StatusOk(), Some(|result|), result)
  }

  /** The bytes behind an input pointer: none for a null pointer. */
  function InputBytes(p: array?<byte>, n: nat): (r: seq<byte>)
    requires p != null ==> n <= p.Length
    reads p
    ensures p != null ==> r == p[..n]
    ensures p == null ==> r == []
  {
    if p == null then [] else p[..n]
  }

  /** The arguments as the callee sees them on entry. */
  function CallArgs(inPtr: array?<byte>, inLen: nat, outPtr: array?<byte>, outCap: nat, outLenPresent: bool): (a: Args)
    requires inPtr != null ==> inLen <= inPtr.Length
    reads inPtr
    ensures a.inPresent <==> inPtr != null
    ensures a.outPresent <==> outPtr != null
    ensures a.inLen == inLen && a.outCap == outCap && a.outLenPresent == outLenPresent
    ensures a.input == InputBytes(inPtr, inLen)
    ensures Consistent(a)
  {
    Args(inPtr != null, inLen, InputBytes(inPtr, inLen), outPtr != null, outCap, outLenPresent)
  }

  /**
   * The caller-visible state after a call with outcome `o`: the status (if
   * any) holds `o.status`; `*out_len` holds the reported length, or keeps
   * its old value; the payload sits at the start of `out_ptr`, and every
   * byte after it keeps its old value.
   */
  twostate predicate Delivered(o: Outcome, outPtr: array?<byte>, outLen: SizeCell?, outStatus: StatusCell?)
    reads outPtr, outLen, outStatus
  {
    && (outStatus != null ==> outStatus.status == o.status)
    && (outLen != null ==> outLen.value == if o.reportedLen.Some? then o.reportedLen.value else old(outLen.value))
    && (outPtr == null ==> o.payload == [])
    && (outPtr != null ==>
          && |o.payload| <= outPtr.Length
          && outPtr[..|o.payload|] == o.payload
          && outPtr[|o.payload|..] == old(outPtr[|o.payload|..]))
  }
}
