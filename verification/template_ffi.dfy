/**
 * The library skeleton the package generator starts from: a version entry
 * point and `process`, which copies its input to the caller's buffer under
 * the same buffer protocol as the base64 library, with its argument checks
 * in a different order.
 */
module TemplateFfi {
  import opened TextBytes
  import opened VixTypes
  import opened VixStatus
  import opened FfiGlue

  /** The version string `__pkg___ffi_version` returns. */
  const VersionText: string := "1.0.0"

  // Local helper of Version: the version literal is plain ASCII.
  lemma VersionTextIsPlain()
    ensures Plain(VersionText) && |VersionText| == 5
  {
  }

  /** `__pkg___ffi_version`: resets the status and returns a view of the version literal. */
  method Version(outStatus: StatusCell?) returns (v: VixStr)
    modifies outStatus
    ensures outStatus != null ==> outStatus.status == StatusOk()
    ensures IsAscii(VersionText) && InBounds(v) && v.len == 5
    ensures ViewBytes(v) == AsciiBytes(VersionText)
  {
    SetOk(outStatus);
    VersionTextIsPlain();
    PlainIsAsciiNoNul(VersionText);
    v := MakeStrLit(VersionText);
  }

  /** The argument checks of `__pkg___ffi_process`, in the order it makes them. */
  function ProcessChecks(a: Args): (checks: seq<Check>)
    ensures |checks| == 3
    ensures (exists i | 0 <= i < |checks| :: checks[i].fails) <==> !ArgsAccepted(a)
  {
    var checks := [Check(!a.inPresent && a.inLen != 0, InPtrNull),
                   Check(!a.outPresent && a.outCap != 0, OutPtrNull),
                   Check(!a.outLenPresent, OutLenNull)];
    assert !ArgsAccepted(a) ==> checks[0].fails || checks[1].fails || checks[2].fails;
    checks
  }

  /** Specification of `__pkg___ffi_process`: the input itself is the result. */
  function ProcessCall(a: Args): (o: Outcome)
    requires Consistent(a)
    ensures Conforms(o)
    ensures o.rc == 0 <==> ArgsAccepted(a) && a.inLen <= a.outCap
  {
    if !a.inPresent && a.inLen != 0 then Rejected(InPtrNull)
    else if !a.outPresent && a.outCap != 0 then Rejected(OutPtrNull)
    else if !a.outLenPresent then Rejected(OutLenNull)
    else Deliver(a.outCap, a.input)
  }

  /**
   * `memcpy(dst, src, n)` between whole buffers. The loop reads each byte
   * before any later write can reach it, so it also copies correctly when
   * `dst` and `src` are the same buffer.
   */
  method CopyBytes(dst: array<byte>, src: array<byte>, n: nat)
    requires n <= dst.Length && n <= src.Length
    modifies dst
    ensures dst[..n] == old(src[..n])
    ensures dst[n..] == old(dst[n..])
  {
    var i := 0;
    while i < n
      invariant i <= n
      invariant dst[..i] == old(src[..i])
      invariant forall j | i <= j < n :: src[j] == old(src[j])
      invariant dst[i..] == old(dst[i..])
    {
      dst[i] := src[i];
      i := i + 1;
    }
  }

  /**
   * `__pkg___ffi_process`: the outcome is the one `ProcessCall` gives for
   * the arguments on entry, and it reaches the caller as `Delivered` says.
   */
  method Process(inPtr: array?<byte>, inLen: nat, outPtr: array?<byte>, outCap: nat,
                 outLen: SizeCell?, outStatus: StatusCell?) returns (rc: int)
    requires inPtr != null ==> inLen <= inPtr.Length
    requires outPtr != null ==> outCap <= outPtr.Length
    modifies outPtr, outLen, outStatus
    ensures var o := ProcessCall(old(CallArgs(inPtr, inLen, outPtr, outCap, outLen != null)));
      rc == o.rc && Delivered(o, outPtr, outLen, outStatus)
  {
    SetOk(outStatus);
    if inPtr == null && inLen != 0 {
      SetError(outStatus, InvalidArg, InPtrNull);
      return 1;
    }
    if outPtr == null && outCap != 0 {
      SetError(outStatus, InvalidArg, OutPtrNull);
      return 1;
    }
    if outLen == null {
      SetError(outStatus, InvalidArg, OutLenNull);
      return 1;
    }
    if outCap < inLen {
      outLen.value := inLen;
      SetError(outStatus, BufferTooSmall, OutputTooSmall);
      return 1;
    }
    if inLen != 0 {
      CopyBytes(outPtr, inPtr, inLen);
    }
    outLen.value := inLen;
    return 0;
  }

  // ---------------------------------------------------------------------
  // Properties

  /** The first failing argument check, worked out one check at a time. */
  lemma FirstProcessFailure(a: Args)
    ensures FirstFailure(ProcessChecks(a)) ==
      if !a.inPresent && a.inLen != 0 then Some(InPtrNull)
      else if !a.outPresent && a.outCap != 0 then Some(OutPtrNull)
      else if !a.outLenPresent then Some(OutLenNull)
      else None
  {
  }

  /**
   * `__pkg___ffi_process` checks its arguments in the order `ProcessChecks`
   * lists them, and accepts exactly the arguments the base64 entry points
   * accept.
   */
  lemma ProcessChecksInOrder(a: Args)
    requires Consistent(a)
    ensures FirstFailure(ProcessChecks(a)).None? <==> ArgsAccepted(a)
    ensures FirstFailure(ProcessChecks(a)).Some? ==> ProcessCall(a) == Rejected(FirstFailure(ProcessChecks(a)).value)
    ensures ArgsAccepted(a) ==> ProcessCall(a) == Deliver(a.outCap, a.input)
  {
    FirstProcessFailure(a);
  }

  /** On success the caller's buffer starts with a copy of the input, and `*out_len` is `in_len`. */
  lemma ProcessCopies(a: Args)
    requires Consistent(a)
    ensures ProcessCall(a).rc == 0 ==>
      ProcessCall(a).payload == a.input && ProcessCall(a).reportedLen == Some(a.inLen)
    ensures ArgsAccepted(a) && a.outCap < a.inLen ==>
      ProcessCall(a).reportedLen == Some(a.inLen) && CodeOf(ProcessCall(a).status.code) == Some(BufferTooSmall)
  {
  }

  /**
   * The template's order on a call with a null `in_ptr`, a non-zero `in_len`
   * and a null `out_len`: the input pointer is refused first, although
   * `out_len` is null as well.
   */
  lemma ProcessOrderDiffers()
    ensures var a := Args(false, 1, [], true, 0, false);
      && FirstFailure(ProcessChecks(a)) == Some(InPtrNull)
      && ProcessCall(a) == Rejected(InPtrNull)
  {
    FirstProcessFailure(Args(false, 1, [], true, 0, false));
  }
}
