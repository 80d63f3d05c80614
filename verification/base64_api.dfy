/**
 * The Python package's public functions `version`, `encode` and `decode`:
 * argument checks, buffer and status allocation, the native call, turning
 * a failed status into `RuntimeError`, and reading the output back.
 *
 * Python values are modelled by the few shapes these functions tell apart;
 * a raised exception is a `Raise` result.
 */
module Base64Api {
  import opened TextBytes
  import opened VixTypes
  import opened VixStatus
  import opened FfiGlue
  import opened Base64Codec
  import opened Base64Ffi
  import opened NativeLoader

  /** The exceptions these functions raise. `ValueError` is ctypes refusing a negative array length. */
  datatype PyError = TypeError(msg: string) | RuntimeError(msg: string) | ValueError | UnicodeDecodeError

  /** A Python call: it returns a value or raises. */
  datatype Py<T> = Return(value: T) | Raise(error: PyError)

  /** An argument as these functions see it. */
  datatype PyObject =
    | PyBytes(bytes: seq<byte>)
    | PyByteArray(bytes: seq<byte>)
    | PyMemoryView(bytes: seq<byte>)
    | PyStr(text: string)
    | PyOther

  /** `isinstance(data, (bytes, bytearray, memoryview))`. */
  predicate IsBytesLike(x: PyObject)
  {
    x.PyBytes? || x.PyByteArray? || x.PyMemoryView?
  }

  /** The default `out_cap` of `encode` and `decode`. */
  const DefaultOutCap: int := 8192

  /** A freshly made `vix_status()`: every field zero. */
  function ZeroStatus(): (st: Status)
    ensures st == StatusOk()
  {
    Status(0, VixStr(Null, 0))
  }

  /**
   * `_raise_status`: nothing for code 0; otherwise `RuntimeError` with the
   * status message, or with `native error code=<code>` when the message is
   * empty.
   */
  function RaiseStatus(st: Status): (e: Option<PyError>)
    requires st.code != 0 ==> Readable(st.message)
    ensures e.None? <==> st.code == 0
    ensures e.Some? ==> e.value.RuntimeError? && e.value.msg != ""
  {
    if st.code == 0 then None
    else
      var msg := DecodeVixStr(st.message);
      Some(RuntimeError(if msg == "" then "native error code=" + IntToDecimal(st.code as int) else msg))
  }

  /** A status the library sets surfaces as its message; the OK status raises nothing. */
  lemma RaiseStatusOfError(code: StatusCode, m: Message)
    ensures Readable(ErrorStatus(code, m).message)
    ensures code != Ok ==> RaiseStatus(ErrorStatus(code, m)) == Some(RuntimeError(m.Text()))
    ensures RaiseStatus(StatusOk()) == None
  {
    ErrorStatusReadsBack(code, m);
    MessageIsPlain(m);
    assert |m.Text()| > 0 by {
      match m
      case OutLenNull =>
      case InPtrNull =>
      case OutPtrNull =>
      case OutputTooSmall =>
      case InvalidBase64 =>
    }
  }

  /** A failed status without a message raises a text from which the code can be read back. */
  lemma RaiseStatusFallback(st: Status)
    requires Readable(st.message) && st.code != 0 && DecodeVixStr(st.message) == ""
    ensures var text := RaiseStatus(st).value.msg;
      && |text| > 18 && text[..18] == "native error code="
      && (st.code > 0 ==> DecimalValue(text[18..]) == st.code as int)
      && (st.code < 0 ==> text[18] == '-' && DecimalValue(text[19..]) == -(st.code as int))
  {
    var digits := IntToDecimal(st.code as int);
    IntToDecimalRoundTrip(st.code as int);
    var text := "native error code=" + digits;
    assert text[..18] == "native error code=";
    assert text[18..] == digits;
  }

  /** The status `base64_encode` leaves reads back. */
  lemma EncodeStatusReadable(a: Args)
    requires Consistent(a)
    ensures Readable(EncodeCall(a).status.message)
  {
    EncodeCallChecksInOrder(a);
    var m := FirstFailure(ArgChecks(a));
    if m.Some? {
      ErrorStatusReadsBack(InvalidArg, m.value);
    } else {
      ErrorStatusReadsBack(BufferTooSmall, OutputTooSmall);
    }
  }

  /** The status `base64_decode` leaves reads back. */
  lemma DecodeStatusReadable(a: Args)
    requires Consistent(a)
    ensures Readable(DecodeCall(a).status.message)
  {
    DecodeCallChecksInOrder(a);
    EncodeCallChecksInOrder(a);
    var m := FirstFailure(ArgChecks(a));
    if m.Some? {
      ErrorStatusReadsBack(InvalidArg, m.value);
    } else if !ValidBase64(a.input) {
      ErrorStatusReadsBack(InvalidArg, InvalidBase64);
    } else {
      ErrorStatusReadsBack(BufferTooSmall, OutputTooSmall);
    }
  }

  /** The arguments `encode` and `decode` pass: both buffers and both out-parameters present. */
  function ApiArgs(b: seq<byte>, outCap: nat): (a: Args)
    ensures Consistent(a) && ArgsAccepted(a)
  {
    Args(true, |b|, b, true, outCap, true)
  }

  // ---------------------------------------------------------------------
  // version

  /** `version()`: the library's version text. */
  method PyVersion() returns (r: Py<string>)
    ensures r == Return(VersionText)
  {
    var st := new StatusCell(ZeroStatus());
    var s := FfiVersion(st);
    DecodeLiteral(VersionText);
    var e := RaiseStatus(st.status);
    assert e.None?;
    return Return(DecodeVixStr(s));
  }

  // ---------------------------------------------------------------------
  // encode

  /** What `encode` makes of the outcome of `base64_encode`: raise on failure, else read the output as text. */
  function ReadEncoded(o: Outcome): (r: Py<string>)
    requires Conforms(o) && (o.rc != 0 ==> Readable(o.status.message))
    ensures r.Return? <==> o.rc == 0 && IsAsciiBytes(o.payload)
    ensures r.Return? ==> Utf8Encode(r.value) == o.payload
    ensures r.Raise? ==> (r.error.RuntimeError? <==> o.rc != 0) && (r.error == UnicodeDecodeError <==> o.rc == 0)
  {
    if o.rc != 0 then Raise(RaiseStatus(o.status).value)
    else
      match DecodeStrict(o.payload)
      case None => Raise(UnicodeDecodeError)
      case Some(text) =>
        EncodeDecodedAscii(o.payload);
        Return(text)
  }

  /** `encode(data, out_cap=...)` as a value. */
  function EncodeResult(data: PyObject, outCap: int): (r: Py<string>)
    ensures r.Raise? && r.error.TypeError? <==> !IsBytesLike(data)
    ensures r == Raise(ValueError) <==> IsBytesLike(data) && outCap < 0
  {
    if !IsBytesLike(data) then Raise(TypeError("data must be bytes-like"))
    else if outCap < 0 then Raise(ValueError)
    else
      EncodeStatusReadable(ApiArgs(data.bytes, outCap));
      ReadEncoded(EncodeCall(ApiArgs(data.bytes, outCap)))
  }

  /**
   * `encode` returns exactly when it is given bytes and room for their
   * encoding, and then returns the base64 text of the bytes; with room too
   * small it raises `RuntimeError("output buffer too small")`.
   */
  lemma EncodeResultMeaning(data: PyObject, outCap: int)
    ensures var r := EncodeResult(data, outCap);
      && (r.Return? <==> IsBytesLike(data) && 0 <= outCap && EncodedLength(|data.bytes|) <= outCap)
      && (r.Return? ==> Utf8Encode(r.value) == Encode(data.bytes))
      && (r.Raise? && IsBytesLike(data) && 0 <= outCap ==> r == Raise(RuntimeError(OutputTooSmall.Text())))
  {
    if IsBytesLike(data) && 0 <= outCap {
      var b := data.bytes;
      var o := EncodeCall(ApiArgs(b, outCap));
      EncodeCallChecksInOrder(ApiArgs(b, outCap));
      RaiseStatusOfError(BufferTooSmall, OutputTooSmall);
      if o.rc == 0 {
        EncodeIsAscii(b);
        EncodeDecodedAscii(o.payload);
      }
    }
  }

  /** `encode`: allocate the buffer, the length and the status, call `base64_encode`, read the text back. */
  method PyEncode(data: PyObject, outCap: int) returns (r: Py<string>)
    ensures r == EncodeResult(data, outCap)
  {
    if !IsBytesLike(data) {
      return Raise(TypeError("data must be bytes-like"));
    }
    var b := data.bytes;
    if outCap < 0 {
      return Raise(ValueError);
    }
    var out := new byte[outCap](_ => 0);
    var outLen := new SizeCell(0);
    var st := new StatusCell(ZeroStatus());
    var input := new byte[|b|](i requires 0 <= i < |b| => b[i]);
    ghost var a := ApiArgs(b, outCap);
    assert input[..|b|] == b;
    assert CallArgs(input, |b|, out, outCap, true) == a;
    ghost var o := EncodeCall(a);
    EncodeStatusReadable(a);
    var rc := Base64Encode(input, |b|, out, outCap, outLen, st);
    assert rc == o.rc && st.status == o.status;
    if rc != 0 {
      var e := RaiseStatus(st.status);
      if e.Some? {
        return Raise(e.value);
      }
    }
    var n := if outLen.value <= outCap then outLen.value else outCap;
    var raw := out[..n];
    assert raw == o.payload;
    var text := DecodeStrict(raw);
    if text.None? {
      return Raise(UnicodeDecodeError);
    }
    return Return(text.value);
  }

  /** Every alphabet character is 7-bit ASCII. */
  lemma AlphabetIsAscii(k: nat)
    requires k < 64
    ensures AlphabetByte(k) < 128
  {
  }

  /** Base64 text is 7-bit ASCII. */
  lemma EncodeIsAscii(b: seq<byte>)
    ensures IsAsciiBytes(Encode(b))
  {
    EncodeAlphabetOnly(b);
    forall i | 0 <= i < |Encode(b)|
      ensures Encode(b)[i] < 128
    {
      var c := Encode(b)[i];
      if c != Pad {
        var k :| 0 <= k < 64 && AlphabetByte(k) == c;
        AlphabetIsAscii(k);
      }
    }
  }

  /** With the default capacity, `encode` succeeds on exactly the inputs of at most 6144 bytes. */
  lemma DefaultCapacity(data: PyObject)
    ensures EncodeResult(data, DefaultOutCap).Return? <==> IsBytesLike(data) && |data.bytes| <= 6144
  {
    EncodeResultMeaning(data, DefaultOutCap);
    if IsBytesLike(data) {
      var n := |data.bytes|;
      assert EncodedLength(n) <= 8192 <==> n <= 6144 by {
        assert 4 * ((n + 2) / 3) <= 8192 <==> (n + 2) / 3 <= 2048;
      }
    }
  }

  // ---------------------------------------------------------------------
  // decode

  /** What `decode` makes of the outcome of `base64_decode`: raise on failure, else the bytes written. */
  function ReadDecoded(o: Outcome): (r: Py<seq<byte>>)
    requires Conforms(o) && (o.rc != 0 ==> Readable(o.status.message))
    ensures r.Return? <==> IsOk(o.status)
    ensures r.Return? ==> o.reportedLen == Some(|r.value|)
    ensures r.Raise? ==> r.error.RuntimeError? && r.error.msg != ""
  {
    if o.rc != 0 then Raise(RaiseStatus(o.status).value) else Return(o.payload)
  }

  /** `decode(text, out_cap=...)` as a value. */
  function DecodeResult(text: PyObject, outCap: int): (r: Py<seq<byte>>)
    ensures r.Raise? && r.error.TypeError? <==> !text.PyStr?
    ensures r == Raise(ValueError) <==> text.PyStr? && outCap < 0
  {
    if !text.PyStr? then Raise(TypeError("text must be str"))
    else
      var b := Utf8Encode(text.text);
      if outCap < 0 then Raise(ValueError)
      else
        DecodeStatusReadable(ApiArgs(b, outCap));
        ReadDecoded(DecodeCall(ApiArgs(b, outCap)))
  }

  /**
   * `decode` returns exactly when it is given a string whose UTF-8 bytes
   * are base64 decoding to at most `out_cap` bytes, and then returns those
   * bytes; otherwise a string raises `RuntimeError` naming the reason.
   */
  lemma DecodeResultMeaning(text: PyObject, outCap: int)
    ensures var r := DecodeResult(text, outCap);
      && (r.Return? <==> && text.PyStr? && 0 <= outCap
                         && Decode(Utf8Encode(text.text)).Some?
                         && |Decode(Utf8Encode(text.text)).value| <= outCap)
      && (r.Return? ==> r.value == Decode(Utf8Encode(text.text)).value)
      && (r.Raise? && text.PyStr? && 0 <= outCap ==>
            r == Raise(RuntimeError(if ValidBase64(Utf8Encode(text.text)) then OutputTooSmall.Text() else InvalidBase64.Text())))
  {
    if text.PyStr? && 0 <= outCap {
      var b := Utf8Encode(text.text);
      DecodeCallChecksInOrder(ApiArgs(b, outCap));
      DecodeAcceptsValid(b);
      RaiseStatusOfError(BufferTooSmall, OutputTooSmall);
      RaiseStatusOfError(InvalidArg, InvalidBase64);
    }
  }

  /** `decode`: encode the text as UTF-8, call `base64_decode`, return the bytes written. */
  method PyDecode(text: PyObject, outCap: int) returns (r: Py<seq<byte>>)
    ensures r == DecodeResult(text, outCap)
  {
    if !text.PyStr? {
      return Raise(TypeError("text must be str"));
    }
    var b := Utf8Encode(text.text);
    if outCap < 0 {
      return Raise(ValueError);
    }
    var out := new byte[outCap](_ => 0);
    var outLen := new SizeCell(0);
    var st := new StatusCell(ZeroStatus());
    var input := new byte[|b|](i requires 0 <= i < |b| => b[i]);
    ghost var a := ApiArgs(b, outCap);
    assert input[..|b|] == b;
    assert CallArgs(input, |b|, out, outCap, true) == a;
    ghost var o := DecodeCall(a);
    DecodeStatusReadable(a);
    var rc := Base64Decode(input, |b|, out, outCap, outLen, st);
    assert rc == o.rc && st.status == o.status;
    if rc != 0 {
      var e := RaiseStatus(st.status);
      if e.Some? {
        return Raise(e.value);
      }
    }
    var n := if outLen.value <= outCap then outLen.value else outCap;
    assert out[..n] == o.payload;
    return Return(out[..n]);
  }

  /** The UTF-8 bytes of text with a character beyond ASCII are never base64. */
  lemma NonAsciiIsNotBase64(t: string, k: nat)
    requires k < |t| && t[k] as int >= 128
    ensures Decode(Utf8Encode(t)) == None && !ValidBase64(Utf8Encode(t))
  {
    var b := Utf8Encode(t);
    Utf8EncodeNonAscii(t, k);
    var j :| 0 <= j < |b| && b[j] >= 0x80;
    DecodeRejects(b, j);
    assert !InAlphabet(b[j]) && b[j] != Pad by {
      forall v | 0 <= v < 64
        ensures AlphabetByte(v) != b[j]
      {
        AlphabetIsAscii(v);
      }
    }
    DecodeAcceptsValid(b);
  }

  /** Text with a character beyond ASCII is never base64: `decode` reports it as invalid input. */
  lemma DecodeNonAscii(t: string, k: nat, outCap: nat)
    requires k < |t| && t[k] as int >= 128
    ensures DecodeResult(PyStr(t), outCap) == Raise(RuntimeError("invalid base64 input"))
  {
    NonAsciiIsNotBase64(t, k);
    DecodeResultMeaning(PyStr(t), outCap);
  }

  /** What `encode` returns, `decode` turns back into the original bytes, given room for them. */
  lemma ApiRoundTrip(data: PyObject, encodeCap: int, decodeCap: int)
    requires EncodeResult(data, encodeCap).Return?
    requires |data.bytes| <= decodeCap
    ensures DecodeResult(PyStr(EncodeResult(data, encodeCap).value), decodeCap) == Return(data.bytes)
  {
    EncodeResultMeaning(data, encodeCap);
    DecodeResultMeaning(PyStr(EncodeResult(data, encodeCap).value), decodeCap);
    DecodeEncode(data.bytes);
  }
}
