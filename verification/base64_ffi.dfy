/**
 * The native base64 library: the codec loops as they run over the caller's
 * bytes, and the three exported entry points `base64_ffi_version`,
 * `base64_encode` and `base64_decode`, each specified by a function of its
 * arguments (`VersionText`, `EncodeCall`, `DecodeCall`).
 */
module Base64Ffi {
  import opened TextBytes
  import opened VixTypes
  import opened VixStatus
  import opened FfiGlue
  import opened Base64Codec

  // ---------------------------------------------------------------------
  // The codec loops

  /** One step of the encoder's loop: pushing a full group keeps `out` a prefix of the encoding. */
  lemma EncodeStep(d: seq<byte>, i: nat, out: seq<byte>)
    requires i + 3 <= |d| && out + Encode(d[i..]) == Encode(d)
    ensures (out + EncodeGroup(d[i], d[i + 1], d[i + 2])) + Encode(d[i + 3..]) == Encode(d)
  {
    var t := d[i..];
    assert t[0] == d[i] && t[1] == d[i + 1] && t[2] == d[i + 2] && t[3..] == d[i + 3..];
    EncodeFront(t);
    ConcatAssoc(out, EncodeGroup(d[i], d[i + 1], d[i + 2]), Encode(d[i + 3..]));
  }

  /** What is left after the encoder's loop: a 1- or 2-byte tail, or nothing. */
  lemma EncodeRest(d: seq<byte>, i: nat, out: seq<byte>)
    requires i <= |d| < i + 3 && out + Encode(d[i..]) == Encode(d)
    ensures |d| - i == 0 ==> out == Encode(d)
    ensures |d| - i == 1 ==> out + EncodeTail1(d[i]) == Encode(d)
    ensures |d| - i == 2 ==> out + EncodeTail2(d[i], d[i + 1]) == Encode(d)
  {
  }

  /**
   * `b64_encode_bytes`: the loop over whole groups of three bytes, then the
   * padded tail. The four characters a group (or a tail) pushes are the
   * ones `EncodeGroup` (or `EncodeTail1`, `EncodeTail2`) computes.
   */
  method EncodeBytes(data: array?<byte>, len: nat) returns (out: seq<byte>)
    requires data == null ==> len == 0
    requires data != null ==> len <= data.Length
    ensures out == Encode(InputBytes(data, len))
  {
    ghost var d := InputBytes(data, len);
    out := [];
    var i := 0;
    assert d[i..] == d;
    while i + 3 <= len
      invariant i <= len
      invariant out + Encode(d[i..]) == Encode(d)
    {
      EncodeStep(d, i, out);
      out := out + EncodeGroup(data[i], data[i + 1], data[i + 2]);
      i := i + 3;
    }
    EncodeRest(d, i, out);
    var rem := len - i;
    if rem == 1 {
      out := out + EncodeTail1(data[i]);
    } else if rem == 2 {
      out := out + EncodeTail2(data[i], data[i + 1]);
    }
  }

  /** Two prefixes in a row are their concatenation. */
  lemma PrependTwice(p: seq<byte>, q: seq<byte>, r: Option<seq<byte>>)
    ensures Prepend(p, Prepend(q, r)) == Prepend(p + q, r)
  {
    if r.Some? {
      assert p + (q + r.value) == (p + q) + r.value;
    }
  }

  /**
   * One step of the decoder's loop, in the order the loop makes its checks:
   * each rejection of block `k` = `c0 c1 c2 c3` ends the decoding in failure,
   * and a block that passes them all adds its bytes to the ones before it.
   */
  lemma DecodeAdvance(s: seq<byte>, k: nat, out: seq<byte>, c0: byte, c1: byte, c2: byte, c3: byte)
    requires |s| % 4 == 0 && 4 * k + 4 <= |s|
    requires c0 == s[4 * k] && c1 == s[4 * k + 1] && c2 == s[4 * k + 2] && c3 == s[4 * k + 3]
    requires Decode(s) == Prepend(out, Decode(s[4 * k..]))
    ensures B64Value(c0) < 0 || B64Value(c1) < 0 ==> Decode(s).None?
    ensures PadOrValue(c2) == -1 || PadOrValue(c3) == -1 ==> Decode(s).None?
    ensures c2 == Pad && c3 != Pad ==> Decode(s).None?
    ensures (c2 == Pad || c3 == Pad) && 4 * k + 4 != |s| ==> Decode(s).None?
    ensures var v0, v1, v2, v3 := B64Value(c0), B64Value(c1), PadOrValue(c2), PadOrValue(c3);
      v0 >= 0 && v1 >= 0 && v2 != -1 && v3 != -1 && !(c2 == Pad && c3 != Pad)
      && !((c2 == Pad || c3 == Pad) && 4 * k + 4 != |s|) ==>
      Decode(s) == Prepend(out + TripleBytes(Triple(v0, v1, v2, v3), c2, c3), Decode(s[4 * k + 4..]))
  {
    var i := 4 * k;
    var t := s[i..];
    assert |t| == 4 * (|s| / 4 - k);
    assert t[0] == c0 && t[1] == c1 && t[2] == c2 && t[3] == c3;
    assert t[4..] == s[i + 4..];
    DecodeBlocksFront(t);
    var b := DecodeBlock(c0, c1, c2, c3);
    if b.Some? {
      PrependTwice(out, b.value, DecodeBlocks(s[i + 4..]));
    }
  }

  /**
   * `b64_decode_string`: walks the text block by block, pushing each block's
   * bytes before its padding is checked. On failure the bytes pushed so far
   * are of no use to the caller and the contract says nothing about them.
   */
  method DecodeString(inPtr: array?<byte>, inLen: nat) returns (ok: bool, out: seq<byte>)
    requires inPtr == null ==> inLen == 0
    requires inPtr != null ==> inLen <= inPtr.Length
    ensures ok <==> Decode(InputBytes(inPtr, inLen)).Some?
    ensures ok ==> out == Decode(InputBytes(inPtr, inLen)).value
  {
    ghost var s := InputBytes(inPtr, inLen);
    if inLen % 4 != 0 {
      return false, [];
    }
    out := [];
    var i := 0;
    ghost var blocks := inLen / 4;
    ghost var k := 0;
    assert s[i..] == s;
    assert Decode(s) == Prepend(out, Decode(s[i..])) by {
      if Decode(s).Some? {
        assert out + Decode(s).value == Decode(s).value;
      }
    }
    while i < inLen
      invariant i == 4 * k && inLen == 4 * blocks && k <= blocks
      invariant Decode(s) == Prepend(out, Decode(s[i..]))
    {
      var c0, c1, c2, c3 := inPtr[i], inPtr[i + 1], inPtr[i + 2], inPtr[i + 3];
      DecodeAdvance(s, k, out, c0, c1, c2, c3);
      var v0, v1 := B64Value(c0), B64Value(c1);
      if v0 < 0 || v1 < 0 {
        return false, out;
      }
      var v2 := PadOrValue(c2);
      var v3 := PadOrValue(c3);
      if v2 == -1 || v3 == -1 {
        return false, out;
      }
      var triple := Triple(v0, v1, v2, v3);
      out := out + TripleBytes(triple, c2, c3);
      if c2 == Pad && c3 != Pad {
        return false, out;
      }
      if c2 == Pad || c3 == Pad {
        if i + 4 != inLen {
          return false, out;
        }
      }
      i := i + 4;
      k := k + 1;
    }
    assert s[i..] == [];
    ok := true;
  }

  // ---------------------------------------------------------------------
  // The entry points

  /** The three argument checks of `base64_encode` and `base64_decode`, in the order they are made. */
  function ArgChecks(a: Args): (checks: seq<Check>)
    ensures |checks| == 3
    ensures (exists i | 0 <= i < |checks| :: checks[i].fails) <==> !ArgsAccepted(a)
  {
    var checks := [Check(!a.outLenPresent, OutLenNull),
                   Check(!a.inPresent && a.inLen != 0, InPtrNull),
                   Check(!a.outPresent && a.outCap != 0, OutPtrNull)];
    assert !ArgsAccepted(a) ==> checks[0].fails || checks[1].fails || checks[2].fails;
    checks
  }

  /** Specification of `base64_encode`. */
  function EncodeCall(a: Args): (o: Outcome)
    requires Consistent(a)
    ensures Conforms(o)
    ensures o.rc == 0 <==> ArgsAccepted(a) && EncodedLength(a.inLen) <= a.outCap
  {
    if !a.outLenPresent then Rejected(OutLenNull)
    else if !a.inPresent && a.inLen != 0 then Rejected(InPtrNull)
    else if !a.outPresent && a.outCap != 0 then Rejected(OutPtrNull)
    else Deliver(a.outCap, Encode(a.input))
  }

  /** Specification of `base64_decode`. */
  function DecodeCall(a: Args): (o: Outcome)
    requires Consistent(a)
    ensures Conforms(o)
    ensures o.rc == 0 <==> ArgsAccepted(a) && Decode(a.input).Some? && |Decode(a.input).value| <= a.outCap
  {
    if !a.outLenPresent then Rejected(OutLenNull)
    else if !a.inPresent && a.inLen != 0 then Rejected(InPtrNull)
    else if !a.outPresent && a.outCap != 0 then Rejected(OutPtrNull)
    else
      match Decode(a.input)
      case None => Rejected(InvalidBase64)
      case Some(dec) => Deliver(a.outCap, dec)
  }

  /** The version string `base64_ffi_version` returns. */
  const VersionText: string := "example-1.0.0"

  // Local helper of FfiVersion: the version literal is plain ASCII.
  lemma VersionTextIsPlain()
    ensures Plain(VersionText) && |VersionText| == 13
  {
  }

  /** `base64_ffi_version`: resets the status and returns a view of the version literal. */
  method FfiVersion(outStatus: StatusCell?) returns (v: VixStr)
    modifies outStatus
    ensures outStatus != null ==> outStatus.status == StatusOk()
    ensures IsAscii(VersionText) && NoNul(VersionText) && v == MakeStrLit(VersionText)
    ensures InBounds(v) && v.len == 13 && ViewBytes(v) == AsciiBytes(VersionText)
  {
    SetOk(outStatus);
    VersionTextIsPlain();
    PlainIsAsciiNoNul(VersionText);
    v := MakeStrLit(VersionText);
  }

  /**
   * `base64_encode`: the outcome is the one `EncodeCall` gives for the
   * arguments on entry, and it reaches the caller as `Delivered` says.
   */
  method Base64Encode(inPtr: array?<byte>, inLen: nat, outPtr: array?<byte>, outCap: nat,
                      outLen: SizeCell?, outStatus: StatusCell?) returns (rc: int)
    requires inPtr != null ==> inLen <= inPtr.Length
    requires outPtr != null ==> outCap <= outPtr.Length
    modifies outPtr, outLen, outStatus
    ensures var o := EncodeCall(old(CallArgs(inPtr, inLen, outPtr, outCap, outLen != null)));
      rc == o.rc && Delivered(o, outPtr, outLen, outStatus)
  {
    SetOk(outStatus);
    if outLen == null {
      SetError(outStatus, InvalidArg, OutLenNull);
      return 1;
    }
    if inPtr == null && inLen != 0 {
      SetError(outStatus, InvalidArg, InPtrNull);
      return 1;
    }
    if outPtr == null && outCap != 0 {
      SetError(outStatus, InvalidArg, OutPtrNull);
      return 1;
    }
    var enc := EncodeBytes(inPtr, inLen);
    if outCap < |enc| {
      outLen.value := |enc|;
      SetError(outStatus, BufferTooSmall, OutputTooSmall);
      return 1;
    }
    if |enc| != 0 {
      CopyOut(outPtr, enc);
    }
    outLen.value := |enc|;
    return 0;
  }

  /**
   * `base64_decode`: the outcome is the one `DecodeCall` gives for the
   * arguments on entry, and it reaches the caller as `Delivered` says.
   */
  method Base64Decode(inPtr: array?<byte>, inLen: nat, outPtr: array?<byte>, outCap: nat,
                      outLen: SizeCell?, outStatus: StatusCell?) returns (rc: int)
    requires inPtr != null ==> inLen <= inPtr.Length
    requires outPtr != null ==> outCap <= outPtr.Length
    modifies outPtr, outLen, outStatus
    ensures var o := DecodeCall(old(CallArgs(inPtr, inLen, outPtr, outCap, outLen != null)));
      rc == o.rc && Delivered(o, outPtr, outLen, outStatus)
  {
    SetOk(outStatus);
    if outLen == null {
      SetError(outStatus, InvalidArg, OutLenNull);
      return 1;
    }
    if inPtr == null && inLen != 0 {
      SetError(outStatus, InvalidArg, InPtrNull);
      return 1;
    }
    if outPtr == null && outCap != 0 {
      SetError(outStatus, InvalidArg, OutPtrNull);
      return 1;
    }
    var ok, dec := DecodeString(inPtr, inLen);
    if !ok {
      SetError(outStatus, InvalidArg, InvalidBase64);
      return 1;
    }
    if outCap < |dec| {
      outLen.value := |dec|;
      SetError(outStatus, BufferTooSmall, OutputTooSmall);
      return 1;
    }
    if |dec| != 0 {
      CopyOut(outPtr, dec);
    }
    outLen.value := |dec|;
    return 0;
  }

  // ---------------------------------------------------------------------
  // Properties of the entry points

  /** The first failing argument check, worked out one check at a time. */
  lemma FirstArgFailure(a: Args)
    ensures FirstFailure(ArgChecks(a)) ==
      if !a.outLenPresent then Some(OutLenNull)
      else if !a.inPresent && a.inLen != 0 then Some(InPtrNull)
      else if !a.outPresent && a.outCap != 0 then Some(OutPtrNull)
      else None
  {
  }

  /**
   * The argument checks of `base64_encode` go in the order `ArgChecks`
   * lists them: the first failing one decides the message, and only when
   * none fails is the input encoded.
   */
  lemma EncodeCallChecksInOrder(a: Args)
    requires Consistent(a)
    ensures FirstFailure(ArgChecks(a)).None? <==> ArgsAccepted(a)
    ensures FirstFailure(ArgChecks(a)).Some? ==> EncodeCall(a) == Rejected(FirstFailure(ArgChecks(a)).value)
    ensures ArgsAccepted(a) ==> EncodeCall(a) == Deliver(a.outCap, Encode(a.input))
  {
    FirstArgFailure(a);
  }

  /** The same order holds in `base64_decode`, which then rejects text that is not base64. */
  lemma DecodeCallChecksInOrder(a: Args)
    requires Consistent(a)
    ensures FirstFailure(ArgChecks(a)).Some? ==> DecodeCall(a) == Rejected(FirstFailure(ArgChecks(a)).value)
    ensures ArgsAccepted(a) && !ValidBase64(a.input) ==> DecodeCall(a) == Rejected(InvalidBase64)
    ensures ArgsAccepted(a) && ValidBase64(a.input) ==>
      Decode(a.input).Some? && DecodeCall(a) == Deliver(a.outCap, Decode(a.input).value)
  {
    FirstArgFailure(a);
    DecodeAcceptsValid(a.input);
  }

  /** What `base64_encode` writes decodes back to its input. */
  lemma EncodeCallRoundTrip(a: Args)
    requires Consistent(a)
    ensures EncodeCall(a).rc == 0 ==> Decode(EncodeCall(a).payload) == Some(a.input)
    ensures EncodeCall(a).rc == 0 ==> |EncodeCall(a).payload| == EncodedLength(a.inLen)
  {
    DecodeEncode(a.input);
  }

  /**
   * `base64_decode` refuses text that is not base64, and otherwise needs one
   * byte of room for every non-`=` character beyond one in four.
   */
  lemma DecodeCallSize(a: Args)
    requires Consistent(a) && ArgsAccepted(a)
    ensures CodeOf(DecodeCall(a).status.code) == Some(InvalidArg) <==> !ValidBase64(a.input)
    ensures ValidBase64(a.input) ==>
      DecodeCall(a).reportedLen == Some(3 * (a.inLen / 4) - multiset(a.input)[Pad])
  {
    DecodeAcceptsValid(a.input);
    if ValidBase64(a.input) {
      DecodedLength(a.input);
      var st := ErrorStatus(BufferTooSmall, OutputTooSmall);
      assert CodeOf(st.code) == Some(BufferTooSmall);
    }
  }

  /**
   * Encoding then decoding through the two entry points, each given room
   * for its result, hands back the original bytes.
   */
  lemma CallRoundTrip(a: Args, b: Args)
    requires Consistent(a) && ArgsAccepted(a) && EncodedLength(a.inLen) <= a.outCap
    requires Consistent(b) && ArgsAccepted(b) && b.input == EncodeCall(a).payload && a.inLen <= b.outCap
    ensures EncodeCall(a).rc == 0 && DecodeCall(b).rc == 0
    ensures DecodeCall(b).payload == a.input
  {
    DecodeEncode(a.input);
  }
}
