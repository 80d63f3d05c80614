# vix-ffi base64 example, template entry point and Python loader in Dafny

This project models the core of vix-ffi, a small kit for exposing C++ code
through a stable C ABI and calling it from Python with `ctypes`, and proves
properties of that model.

- **Status and view records** (`vix_status`, `vix_str`, `vix_buf`,
  `vix_mut_buf`).
  - The status carries a fixed set of 32-bit codes. 0 alone means success.
  - `vix_status_ok()` builds the OK status.
- **Base64 example library.**
  - An RFC 4648 base64 codec with the standard alphabet, `=` padding and no
    line breaks.
  - Two entry points, `base64_encode` and `base64_decode`, that follow the
    caller-allocated buffer protocol:
    - they validate the pointer and length arguments in a fixed order;
    - they report `BUFFER_TOO_SMALL` with the required size when the
      output does not fit;
    - otherwise they copy the result into the caller's buffer and set
      `*out_len`.
  - The version entry point.
- **Template entry point** `__pkg___ffi_process`.
  - The same protocol, with a plain copy as the payload.
  - Its validation order is different.
- **Python package of the example.**
  - `_raise_status`, `version`, `encode` and `decode` in `api.py`.
  - `_decode_vix_str`, the library file name, the candidate directory list
    built from `VIX_LIB_PATH`, the ordered fallback of `load_library` and
    the memoised handle of `_get_lib` in `_native.py`.

The modules follow the source files:

| module | file | models |
|---|---|---|
| `TextBytes` | `text_bytes.dfy` | bytes, UTF-8 encoding of strings, decoding of ASCII bytes, decimal spelling |
| `VixTypes` | `vix_types.dfy` | `vix_str`, `vix_buf`, `vix_mut_buf`; a `const char *` is null or points at static bytes |
| `VixStatus` | `vix_status.dfy` | `vix_status_code`, `vix_status`, `vix_status_ok()` |
| `FfiGlue` | `ffi_glue.dfy` | what both native files share: `make_str_lit`, `set_ok`, `set_error`, the `memcpy` into the caller buffer, argument checks, the outcome of a call |
| `Base64Codec` | `base64_codec.dfy` | `kAlphabet`, `b64_value`, the encoder and the decoder as functions, with their proofs |
| `Base64Ffi` | `base64_ffi.dfy` | the encoder and decoder loops as methods, the exported `base64_*` entry points |
| `TemplateFfi` | `template_ffi.dfy` | the template's version and process entry points |
| `CheckOrder` | `check_order.dfy` | the two libraries' argument checks side by side: the same checks in different orders |
| `NativeLoader` | `native_loader.dfy` | `_native.py` |
| `Base64Api` | `base64_api.dfy` | `api.py` |

How the model is built:

- **Entry points** are methods.
  - They work on caller arrays (`array?<byte>`; null is allowed) and on
    nullable cells for `*out_len` and `*out_status`.
  - Each is proved against a function of its arguments (`EncodeCall`,
    `DecodeCall`, `ProcessCall`). That function gives the return code, the
    status, what is stored in `*out_len` (if anything) and the bytes
    written.
  - The twostate predicate `Delivered` states the new caller-visible state.
    After the payload, every byte of the output buffer keeps its old value.
- **The codec loops** (`EncodeBytes`, `DecodeString`) are `while` loops over
  the index `i`, proved equal to the recursive specifications `Encode` and
  `Decode`.
- **The Python side** works on values. A raised exception is a `Raise`
  result.
  - `PyEncode` and `PyDecode` allocate the output array and the two
    out-parameter cells, then call the entry-point methods themselves.
  - `NativeModule` is a class whose field `lib` is the module global `_lib`.
- **Oracles.** `os.environ`, `sys.platform`, the module directory,
  `Path.exists` and `ctypes.CDLL` are the fields of a `Host` value:
  - the environment value is an `Option<string>`;
  - the platform is a string;
  - file existence is a function `string -> bool`;
  - the dynamic loader is a function from a path to an opened handle or a
    failure reason.
- **Bytes** are the newtype `byte = 0..255`. Strings are `seq<char>`.
  `size_t` lengths are `nat`.

## Model

| member | source | states |
|---|---|---|
| `VixStatus.StatusCode.Value` | include/vix/ffi/vix_ffi_status.h:14-21 | each enumerator's value lies in 0..4, and the value is 0 exactly for `VIX_STATUS_OK` |
| `VixStatus.CodeOf` | include/vix/ffi/vix_ffi_status.h:14-21 | a raw `int32` code names an enumerator exactly when it is in 0..4, and the enumerator it names has that value |
| `VixStatus.CodeOfValue` | include/vix/ffi/vix_ffi_status.h:14-21 | reading an enumerator's value back gives the same enumerator |
| `VixStatus.ValuesDistinct` | include/vix/ffi/vix_ffi_status.h:14-21 | two enumerators have the same value only if they are the same enumerator |
| `VixStatus.StatusOk` | include/vix/ffi/vix_ffi_status.h:29-36 | `vix_status_ok()` has code OK (0), a null message pointer and message length 0, so it views no bytes |
| `VixTypes.ViewBytes` | include/vix/ffi/vix_ffi_types.h:12-16 | a `vix_str` in bounds views exactly `len` bytes of its pointer; a null pointer views none |
| `FfiGlue.StrLen` | examples/base64_ffi/src/base64_ffi.cpp:12 | `strlen` finds a NUL, and no byte before it is NUL |
| `FfiGlue.MakeStrLit` | examples/base64_ffi/src/base64_ffi.cpp:8-14 | `make_str_lit` points at the literal's bytes, is in bounds, and its length is the text's length, so it views exactly the text's bytes |
| `FfiGlue.MakeStrLitIsStrLen` | templates/lib_ffi/src/__pkg___ffi.cpp:6-12 | the length `make_str_lit` records is the one `strlen` finds on the NUL-terminated literal |
| `FfiGlue.MessageIsPlain` | examples/base64_ffi/src/base64_ffi.cpp:158-223 | every error message literal is ASCII without an embedded NUL |
| `FfiGlue.ErrorStatus` | examples/base64_ffi/src/base64_ffi.cpp:22-28 | the status `set_error` stores reports failure exactly when its code is not OK, carries that code, and views the message's bytes |
| `FfiGlue.SetOk` | examples/base64_ffi/src/base64_ffi.cpp:16-20 | a non-null status becomes `vix_status_ok()`; a null one is left alone |
| `FfiGlue.SetError` | templates/lib_ffi/src/__pkg___ffi.cpp:14-20 | a non-null status receives the code and message; a null one is never written |
| `FfiGlue.CopyOut` | examples/base64_ffi/src/base64_ffi.cpp:181-183 | the `memcpy` puts the result in the first bytes of the buffer, and every later byte keeps its old value |
| `FfiGlue.FirstFailure` | examples/base64_ffi/src/base64_ffi.cpp:156-170 | the checks are made in order: no message iff no check fails; otherwise the message is that of a failing check with no failing check before it |
| `FfiGlue.Rejected` | examples/base64_ffi/src/base64_ffi.cpp:156-170 | a refused argument returns 1 with `INVALID_ARG`, stores nothing in `*out_len` and writes no output |
| `FfiGlue.Deliver` | examples/base64_ffi/src/base64_ffi.cpp:174-184 | `*out_len` always receives the result size; the call returns 0 iff the result fits, and then the output is the result and the status is OK; otherwise the status is `BUFFER_TOO_SMALL`, "output buffer too small", and nothing is written |
| `FfiGlue.InputBytes` | examples/base64_ffi/src/base64_ffi.cpp:146-148 | the bytes behind `in_ptr` are its first `in_len` bytes, and none for a null pointer |
| `FfiGlue.CallArgs` | examples/base64_ffi/src/base64_ffi.cpp:146-152 | the arguments an entry point sees record which pointers are null, the sizes, and input bytes consistent with `in_len` |
| `FfiGlue.Conforms` | examples/base64_ffi/src/base64_ffi.cpp:146-231 | the return contract of every entry point, as a definition without a contract of its own: the code is 0 or 1, 0 exactly when the status is OK, an error writes no output, and success reports the size written |
| `FfiGlue.Delivered` | examples/base64_ffi/src/base64_ffi.cpp:174-184 | how an outcome reaches the caller, as a twostate definition without a contract of its own: the status cell holds the outcome's status, `*out_len` the reported size or its old value, the buffer starts with the payload, and every later byte keeps its old value |
| `Base64Codec.AlphabetByte` | examples/base64_ffi/src/base64_ffi.cpp:31 | no character of `kAlphabet` is `=` |
| `Base64Codec.AlphabetByteIsLiteral` | examples/base64_ffi/src/base64_ffi.cpp:31 | the alphabet is, position by position, the literal `A-Z a-z 0-9 + /` |
| `Base64Codec.B64Value` | examples/base64_ffi/src/base64_ffi.cpp:70-83 | `b64_value` returns -1 or a value below 64 |
| `Base64Codec.ValueOfAlphabet` | examples/base64_ffi/src/base64_ffi.cpp:31-83 | `b64_value(kAlphabet[k]) == k` for every `k < 64` |
| `Base64Codec.ValueFindsAlphabet` | examples/base64_ffi/src/base64_ffi.cpp:70-83 | `b64_value(c) >= 0` iff `c` is an alphabet character, and then `kAlphabet[b64_value(c)] == c`; `b64_value('=') == -1` |
| `Base64Codec.EncodeGroup` | examples/base64_ffi/src/base64_ffi.cpp:41-45 | a full group of three bytes becomes exactly four characters |
| `Base64Codec.GroupInAlphabet` | examples/base64_ffi/src/base64_ffi.cpp:41-45 | the four characters of a full group are all alphabet characters, none of them `=` |
| `Base64Codec.EncodeTail1` | examples/base64_ffi/src/base64_ffi.cpp:50-57 | a one-byte tail becomes exactly four characters |
| `Base64Codec.Tail1InAlphabet` | examples/base64_ffi/src/base64_ffi.cpp:50-57 | a one-byte tail is two alphabet characters followed by `==` |
| `Base64Codec.EncodeTail2` | examples/base64_ffi/src/base64_ffi.cpp:58-65 | a two-byte tail becomes exactly four characters |
| `Base64Codec.Tail2InAlphabet` | examples/base64_ffi/src/base64_ffi.cpp:58-65 | a two-byte tail is three alphabet characters followed by `=` |
| `Base64Codec.EncodedLength` | examples/base64_ffi/src/base64_ffi.cpp:36 | `((len + 2) / 3) * 4`, as a definition without a contract of its own; `EncodedLengthFits` and `Encode` state what it means |
| `Base64Codec.EncodedLengthFits` | examples/base64_ffi/src/base64_ffi.cpp:36 | the encoded length is a multiple of 4, and it is the fewest four-character groups whose three bytes each hold all `n` bytes |
| `Base64Codec.Encode` | examples/base64_ffi/src/base64_ffi.cpp:33-68 | the encoding of `n` bytes has `EncodedLength(n)` = `4*ceil(n/3)` characters |
| `Base64Codec.EncodeFront` | examples/base64_ffi/src/base64_ffi.cpp:39-47 | the encoder handles the input three bytes at a time from the front |
| `Base64Codec.SextetsSpelled` | examples/base64_ffi/src/base64_ffi.cpp:41-64 | a group spells the four 6-bit fields of `v` from the top down; a two-byte tail ends in one `=`, a one-byte tail in `==` |
| `Base64Codec.EncodeAlphabetOnly` | examples/base64_ffi/src/base64_ffi.cpp:39-65 | every output character is an alphabet character except the final `PadCount` ones (2 for a one-byte tail, 1 for a two-byte tail, else 0), which are `=` |
| `Base64Codec.GroupThenPads` | examples/base64_ffi/src/base64_ffi.cpp:39-65 | after a full group, `=` appears exactly in the last `PadCount` positions |
| `Base64Codec.GroupThenAlphabet` | examples/base64_ffi/src/base64_ffi.cpp:39-65 | after a full group, every non-`=` character is in the alphabet |
| `Base64Codec.EncodeTestVectors` | examples/base64_ffi/src/base64_ffi.cpp:31-68 | the RFC 4648 section 10 vectors: "" → "", "f" → "Zg==", "fo" → "Zm8=", "foo" → "Zm9v", "foob" → "Zm9vYg==", "fooba" → "Zm9vYmE=", "foobar" → "Zm9vYmFy" |
| `Base64Codec.PadOrValue` | examples/base64_ffi/src/base64_ffi.cpp:107-108 | the value of `c2` or `c3` is -2 exactly for `=`, -1 exactly for a character that is neither `=` nor in the alphabet, and otherwise a sextet below 64 |
| `Base64Codec.Triple` | examples/base64_ffi/src/base64_ffi.cpp:112-116 | the 24-bit `triple` has `v0` and `v1` as its top two 6-bit fields, then `v2` and `v3`, each 0 where its character is `=` |
| `Base64Codec.TripleBytes` | examples/base64_ffi/src/base64_ffi.cpp:118-122 | a block yields one to three bytes: three exactly when neither `c2` nor `c3` is `=`, and one when both are |
| `Base64Codec.DecodeBlock` | examples/base64_ffi/src/base64_ffi.cpp:97-126 | an accepted block starts with two alphabet characters and yields one to three bytes, three exactly when it holds no `=` |
| `Base64Codec.DecodeBlocks` | examples/base64_ffi/src/base64_ffi.cpp:94-135 | the block loop, as a definition without a contract of its own; `DecodeBlocksAcceptsValid` and `DecodeBlocksFront` state what it does |
| `Base64Codec.Decode` | examples/base64_ffi/src/base64_ffi.cpp:85-138 | `b64_decode_string`, as a definition without a contract of its own; `DecodeAcceptsValid`, `DecodedLength` and `DecodeEncode` state what it does |
| `Base64Codec.ValidBase64` | examples/base64_ffi/src/base64_ffi.cpp:87-132 | valid base64 defined without reference to the decoder: a multiple of four characters from the alphabet, `=` only in the last two places, and a `=` in the second-to-last place only before another `=` |
| `Base64Codec.TripleBytesSpelled` | examples/base64_ffi/src/base64_ffi.cpp:118-122 | a block yields the top byte of `triple`, then the middle byte unless `c2` is `=`, then the low byte unless `c3` is `=` |
| `Base64Codec.BlockAccepts` | examples/base64_ffi/src/base64_ffi.cpp:102-126 | a block is accepted iff `c0` and `c1` are alphabet characters, `c2` and `c3` are alphabet characters or `=`, and `c3` is `=` whenever `c2` is |
| `Base64Codec.DecodeAcceptsValid` | examples/base64_ffi/src/base64_ffi.cpp:85-138 | `b64_decode_string` succeeds exactly on valid base64: length a multiple of 4, each block accepted, padding only in the last block |
| `Base64Codec.DecodeBlocksAcceptsValid` | examples/base64_ffi/src/base64_ffi.cpp:94-137 | the block loop succeeds exactly on valid base64 of a length divisible by 4 |
| `Base64Codec.ValidSplit` | examples/base64_ffi/src/base64_ffi.cpp:124-132 | validity means: the first block's characters are allowed, a padded first block is the last one, and the rest is valid |
| `Base64Codec.DecodeRejects` | examples/base64_ffi/src/base64_ffi.cpp:88-132 | decoding fails when the length is not a multiple of 4, when `c0`/`c1` is not in the alphabet, when `c2`/`c3` is neither an alphabet character nor `=`, when `c2` is `=` but `c3` is not, and when a block before the last one has `=` |
| `Base64Codec.BlockLength` | examples/base64_ffi/src/base64_ffi.cpp:118-122 | an accepted block yields one byte, plus one for each of `c2` and `c3` that is not `=` |
| `Base64Codec.DecodedLength` | examples/base64_ffi/src/base64_ffi.cpp:92-122 | on success the decoded length is `3*(in_len/4)` minus the number of `=` characters |
| `Base64Codec.GroupRoundTrip` | examples/base64_ffi/src/base64_ffi.cpp:41-122 | decoding the four characters of a full group gives back its three bytes |
| `Base64Codec.Tail1RoundTrip` | examples/base64_ffi/src/base64_ffi.cpp:52-122 | decoding the `xx==` tail gives back its one byte |
| `Base64Codec.Tail2RoundTrip` | examples/base64_ffi/src/base64_ffi.cpp:60-122 | decoding the `xxx=` tail gives back its two bytes |
| `Base64Codec.DecodeBlocksFront` | examples/base64_ffi/src/base64_ffi.cpp:94-135 | the decoder fails on a bad first block or on a padded block that is not last, and otherwise prepends the block's bytes to the decoding of the rest |
| `Base64Codec.DecodeEncode` | examples/base64_ffi/src/base64_ffi.cpp:33-138 | round trip: decoding the encoding of any bytes succeeds and gives exactly those bytes |
| `Base64Codec.NonZeroPadBitsAccepted` | examples/base64_ffi/src/base64_ffi.cpp:112-122 | the decoder does not check pad bits: "Zh==" decodes to "f" although "f" encodes to "Zg==", so encoding after decoding is not the identity |
| `Base64Ffi.EncodeBytes` | examples/base64_ffi/src/base64_ffi.cpp:33-68 | the `while` loop over `i` with its tail cases returns exactly `Encode` of the input bytes |
| `Base64Ffi.DecodeString` | examples/base64_ffi/src/base64_ffi.cpp:85-138 | the block loop returns true iff `Decode` succeeds, and then the output is the decoded bytes |
| `Base64Ffi.DecodeAdvance` | examples/base64_ffi/src/base64_ffi.cpp:102-134 | one iteration of the decoder loop: each early `return false` means the input is not base64; otherwise the pushed bytes extend the prefix of the result |
| `Base64Ffi.ArgChecks` | examples/base64_ffi/src/base64_ffi.cpp:156-170 | the three argument checks of both entry points: some check fails exactly when the arguments are not accepted |
| `Base64Ffi.EncodeCall` | examples/base64_ffi/src/base64_ffi.cpp:146-185 | `base64_encode` follows the return contract and returns 0 iff the arguments are accepted and `4*ceil(in_len/3) <= out_cap` |
| `Base64Ffi.DecodeCall` | examples/base64_ffi/src/base64_ffi.cpp:187-231 | `base64_decode` follows the return contract and returns 0 iff the arguments are accepted, the input is base64 and the decoded bytes fit in `out_cap` |
| `Base64Ffi.FfiVersion` | examples/base64_ffi/src/base64_ffi.cpp:140-144 | sets a non-null status to OK and returns the 13-byte view of "example-1.0.0" |
| `Base64Ffi.Base64Encode` | examples/base64_ffi/src/base64_ffi.cpp:146-185 | the entry point returns `EncodeCall`'s code and leaves the status, `*out_len` and the output buffer as `EncodeCall` says; bytes after the payload are unchanged |
| `Base64Ffi.Base64Decode` | examples/base64_ffi/src/base64_ffi.cpp:187-231 | the entry point returns `DecodeCall`'s code and leaves the status, `*out_len` and the output buffer as `DecodeCall` says; bytes after the payload are unchanged |
| `Base64Ffi.FirstArgFailure` | examples/base64_ffi/src/base64_ffi.cpp:156-170 | the first argument error is `out_len` null, then `in_ptr` null with `in_len != 0`, then `out_ptr` null with `out_cap != 0` |
| `Base64Ffi.EncodeCallChecksInOrder` | examples/base64_ffi/src/base64_ffi.cpp:156-184 | a failing argument check gives the `INVALID_ARG` rejection for the first failing check; accepted arguments deliver the encoding to a buffer of `out_cap` bytes |
| `Base64Ffi.DecodeCallChecksInOrder` | examples/base64_ffi/src/base64_ffi.cpp:197-230 | argument errors come first; then invalid base64 gives `INVALID_ARG` "invalid base64 input" with `*out_len` untouched; valid input delivers the decoded bytes |
| `Base64Ffi.EncodeCallRoundTrip` | examples/base64_ffi/src/base64_ffi.cpp:33-185 | a successful encode call writes exactly `4*ceil(in_len/3)` bytes, and they decode back to the input |
| `Base64Ffi.DecodeCallSize` | examples/base64_ffi/src/base64_ffi.cpp:213-229 | with accepted arguments the status is `INVALID_ARG` iff the input is not base64; for valid input, the reported size is `3*(in_len/4)` minus the number of `=` |
| `Base64Ffi.CallRoundTrip` | examples/base64_ffi/src/base64_ffi.cpp:146-231 | given room, encoding and then decoding the payload through the two entry points both return 0 and give back the original bytes |
| `CheckOrder.ArgumentOrderDiffers` | examples/base64_ffi/src/base64_ffi.cpp:156-170 | with a null `in_ptr` of length 1 and a null `out_len`, both base64 entry points refuse the call for `out_len`, while the template refuses it for `in_ptr` with a different status |
| `TemplateFfi.Version` | templates/lib_ffi/src/__pkg___ffi.cpp:22-30 | sets a non-null status to OK and returns the 5-byte view of "1.0.0" |
| `TemplateFfi.ProcessCall` | templates/lib_ffi/src/__pkg___ffi.cpp:32-77 | the template call follows the return contract and returns 0 iff the arguments are accepted and `in_len <= out_cap` |
| `TemplateFfi.ProcessChecks` | templates/lib_ffi/src/__pkg___ffi.cpp:43-59 | the three argument checks of the template, in its own order: some check fails exactly when the arguments are not accepted |
| `TemplateFfi.CopyBytes` | templates/lib_ffi/src/__pkg___ffi.cpp:72-73 | `memcpy(out_ptr, in_ptr, in_len)`: the first `in_len` output bytes are the input bytes, and the rest keep their old values |
| `TemplateFfi.Process` | templates/lib_ffi/src/__pkg___ffi.cpp:32-88 | the entry point returns `ProcessCall`'s code and leaves the status, `*out_len` and the output buffer as `ProcessCall` says |
| `TemplateFfi.FirstProcessFailure` | templates/lib_ffi/src/__pkg___ffi.cpp:43-59 | the first argument error is `in_ptr` null with `in_len != 0`, then `out_ptr` null with `out_cap != 0`, then `out_len` null |
| `TemplateFfi.ProcessChecksInOrder` | templates/lib_ffi/src/__pkg___ffi.cpp:43-76 | a failing check gives the rejection of the first failing check; accepted arguments deliver the input itself to a buffer of `out_cap` bytes |
| `TemplateFfi.ProcessCopies` | templates/lib_ffi/src/__pkg___ffi.cpp:65-76 | on success the output is the input and `*out_len == in_len`; with `out_cap < in_len`, `*out_len == in_len` and the status is `BUFFER_TOO_SMALL` |
| `TemplateFfi.ProcessOrderDiffers` | templates/lib_ffi/src/__pkg___ffi.cpp:43-59 | with a null `in_ptr` of length 1 and a null `out_len`, the template refuses the call for `in_ptr` first |
| `TextBytes.Utf8EncodeAppend` | examples/base64_ffi/python/base64/api.py:53 | `str.encode("utf-8")` of a concatenation is the concatenation of the encodings |
| `TextBytes.Utf8EncodeAscii` | examples/base64_ffi/python/base64/api.py:53 | an ASCII string encodes to one byte per character, with the same code |
| `TextBytes.Utf8EncodeNonAscii` | examples/base64_ffi/python/base64/api.py:53 | a string with a non-ASCII character encodes to bytes containing one at or above 0x80 |
| `TextBytes.CharUtf8` | examples/base64_ffi/python/base64/api.py:53 | one character encodes to one to four bytes: one byte exactly for ASCII, holding the same code; every byte of a non-ASCII character is at or above 0x80 |
| `TextBytes.Utf8Encode` | examples/base64_ffi/python/base64/api.py:53 | a string of `n` characters encodes to between `n` and `4n` bytes |
| `TextBytes.DecodeReplace` | examples/base64_ffi/python/base64/_native.py:22 | decoding with replacement gives one character per byte, and an ASCII byte gives the character with the same code |
| `TextBytes.IntToDecimal` | examples/base64_ffi/python/base64/api.py:13 | `str(int)` is non-empty, starts with `-` exactly for a negative number, and is otherwise digits |
| `TextBytes.DecodeStrict` | examples/base64_ffi/python/base64/api.py:46 | strict decoding of ASCII bytes succeeds, and it fails on any byte at or above 0x80 (this model decodes ASCII only) |
| `TextBytes.DecodeUtf8Ascii` | examples/base64_ffi/python/base64/api.py:46-53 | decoding the UTF-8 encoding of an ASCII string gives the string back, strictly or with replacement |
| `TextBytes.EncodeDecodedAscii` | examples/base64_ffi/python/base64/api.py:46-53 | encoding the text decoded from ASCII bytes gives those bytes back |
| `TextBytes.IntToDecimalRoundTrip` | examples/base64_ffi/python/base64/api.py:13 | the decimal spelling reads back to the number: the digits after `-` to its magnitude when it is negative, all of them to it otherwise |
| `NativeLoader.CharPtrValue` | examples/base64_ffi/python/base64/_native.py:10-11 | a `c_char_p` field reads as `None` iff null, else as the bytes before the first NUL |
| `NativeLoader.Readable` | examples/base64_ffi/python/base64/_native.py:18-21 | a view whose bytes `_decode_vix_str` can read is in bounds |
| `NativeLoader.DecodeVixStr` | examples/base64_ffi/python/base64/_native.py:18-22 | `_decode_vix_str` decodes the `len` bytes the view covers (empty for null or `len == 0`), one character per byte |
| `NativeLoader.CharPtrValueOfReadable` | examples/base64_ffi/python/base64/_native.py:18-21 | for a readable view, the `c_char_p` value is empty iff its first byte is NUL, and its first `len` bytes are the bytes the view covers |
| `NativeLoader.DecodeLiteral` | examples/base64_ffi/python/base64/_native.py:18-22 | a `make_str_lit` view decodes back to its text, and the OK status's message decodes to "" |
| `NativeLoader.ErrorStatusReadsBack` | examples/base64_ffi/python/base64/_native.py:18-22 | the message `set_error` stores decodes back to the message text, and `vix_status_ok()`'s message decodes to "" |
| `NativeLoader.IsWindows` | examples/base64_ffi/python/base64/_native.py:27 | `sys.platform.startswith("win")` holds exactly when "win" is a prefix of the platform, and never for "darwin" |
| `NativeLoader.DefaultLibFilename` | examples/base64_ffi/python/base64/_native.py:25-31 | "base64.dll" iff the platform starts with "win"; "libbase64.dylib" iff it is exactly "darwin"; "libbase64.so" otherwise |
| `NativeLoader.PathListSep` | examples/base64_ffi/python/base64/_native.py:38 | the separator is `;` exactly on Windows and `:` otherwise; it is never whitespace |
| `NativeLoader.Split` | examples/base64_ffi/python/base64/_native.py:39 | `str.split(sep)` gives at least one part, and no part contains the separator |
| `NativeLoader.JoinSplit` | examples/base64_ffi/python/base64/_native.py:39 | joining the parts of a split with the separator gives the original string |
| `NativeLoader.SplitJoin` | examples/base64_ffi/python/base64/_native.py:39 | splitting separator-free parts joined with the separator gives those parts back |
| `NativeLoader.JoinWith` | examples/base64_ffi/python/base64/_native.py:64 | `sep.join(parts)` starts with the first part and is at least as long as the parts with a separator between each two |
| `NativeLoader.IsSpace` | examples/base64_ffi/python/base64/_native.py:40 | no printable ASCII character is whitespace, while space, tab, newline and carriage return are |
| `NativeLoader.SkipSpace` | examples/base64_ffi/python/base64/_native.py:40 | the scan for the first non-whitespace character stops at one, or at the end |
| `NativeLoader.SkipSpaceOverSpace` | examples/base64_ffi/python/base64/_native.py:40 | every character skipped by the leading scan is whitespace |
| `NativeLoader.BackSpace` | examples/base64_ffi/python/base64/_native.py:40 | the scan for the last non-whitespace character stops just after one, or at the start |
| `NativeLoader.BackSpaceOverSpace` | examples/base64_ffi/python/base64/_native.py:40 | every character dropped by the trailing scan is whitespace |
| `NativeLoader.Strip` | examples/base64_ffi/python/base64/_native.py:40 | `str.strip()` is no longer than its input and neither begins nor ends with whitespace |
| `NativeLoader.StripIsSlice` | examples/base64_ffi/python/base64/_native.py:40 | `str.strip()` is a slice of its input with only whitespace outside it |
| `NativeLoader.StripFixed` | examples/base64_ffi/python/base64/_native.py:40 | a string with no whitespace at either end is left unchanged by `strip` |
| `NativeLoader.StripIdempotent` | examples/base64_ffi/python/base64/_native.py:40 | stripping twice is stripping once |
| `NativeLoader.StripBlank` | examples/base64_ffi/python/base64/_native.py:40-41 | a part strips to the empty string exactly when it is all whitespace |
| `NativeLoader.KeepOne` | examples/base64_ffi/python/base64/_native.py:40-42 | one part keeps at most one entry: none exactly when it is all whitespace, otherwise its non-empty strip |
| `NativeLoader.KeptParts` | examples/base64_ffi/python/base64/_native.py:39-42 | the loop keeps at most one entry per part |
| `NativeLoader.KeptPartsStripped` | examples/base64_ffi/python/base64/_native.py:39-42 | each kept part is non-empty and stripped |
| `NativeLoader.KeptPartsAppend` | examples/base64_ffi/python/base64/_native.py:39-42 | parts are kept one by one in order: keeping from `a + b` keeps from `a`, then from `b` |
| `NativeLoader.KeptPartsFixed` | examples/base64_ffi/python/base64/_native.py:39-42 | parts that are already non-empty and stripped are all kept, unchanged and in order |
| `NativeLoader.EnvValue` | examples/base64_ffi/python/base64/_native.py:36 | `os.environ.get("VIX_LIB_PATH", "")` is the variable's value when it is set, and empty exactly when it is unset or set to the empty string |
| `NativeLoader.Candidates` | examples/base64_ffi/python/base64/_native.py:34-45 | the module directory is always the last candidate, and an empty `VIX_LIB_PATH` gives exactly that one |
| `NativeLoader.CandidatesShape` | examples/base64_ffi/python/base64/_native.py:34-45 | every candidate before the module directory is non-empty and stripped |
| `NativeLoader.CandidatesOfJoinedList` | examples/base64_ffi/python/base64/_native.py:36-44 | a `VIX_LIB_PATH` made by joining clean directories with the platform separator (`;` on Windows, else `:`) gives those directories in order, then the module directory |
| `NativeLoader.CandidatePaths` | examples/base64_ffi/python/base64/_native.py:34-45 | the loop that appends kept parts and then the module directory builds exactly the candidate list |
| `NativeLoader.CandidateFile` | examples/base64_ffi/python/base64/_native.py:52 | `base / fname` is the directory, then the platform's separator ("\\" exactly on Windows, else "/"), then the file name |
| `NativeLoader.SearchDirs` | examples/base64_ffi/python/base64/_native.py:51-57 | a search that finds nothing reports at most one message per candidate |
| `NativeLoader.Attempted` | examples/base64_ffi/python/base64/_native.py:51-53 | only candidates whose file exists are tried, so there are no more attempts than candidates |
| `NativeLoader.SearchFindsFirst` | examples/base64_ffi/python/base64/_native.py:51-55 | a found library is the handle of an existing candidate that loads, and every earlier existing candidate failed to load |
| `NativeLoader.SearchReportsEach` | examples/base64_ffi/python/base64/_native.py:51-57 | when no candidate loads, every existing candidate failed, and the errors are one "failed to load: <path>: <reason>" per attempt, in attempt order |
| `NativeLoader.NoFilesNoMessages` | examples/base64_ffi/python/base64/_native.py:53 | candidates whose files are missing contribute no message |
| `NativeLoader.LoadOutcomeOf` | examples/base64_ffi/python/base64/_native.py:48-64 | loading fails only after the load by bare name failed, and its message then starts with "could not load native library\n" |
| `NativeLoader.LoadErrorLists` | examples/base64_ffi/python/base64/_native.py:48-64 | when loading fails, the load by bare name failed too, and the error is "could not load native library\n" followed by one line per failed attempt, in order, the by-name failure last |
| `NativeLoader.LoadLibrary` | examples/base64_ffi/python/base64/_native.py:48-64 | the loop over candidates, the load by name and the raise give exactly the outcome of the ordered search |
| `NativeLoader.NativeModule.constructor` | examples/base64_ffi/python/base64/_native.py:67 | `_lib` starts as `None`, before any load |
| `NativeLoader.NativeModule.GetLib` | examples/base64_ffi/python/base64/_native.py:70-74 | once a handle is cached it is returned again without loading; otherwise one load is made, and only a successful one is cached |
| `Base64Api.ZeroStatus` | examples/base64_ffi/python/base64/api.py:31 | a fresh `vix_status()` is the OK status |
| `Base64Api.RaiseStatus` | examples/base64_ffi/python/base64/api.py:8-14 | `_raise_status` returns normally iff the code is 0 (the message is read only for a non-zero code); otherwise it raises `RuntimeError` with a non-empty message |
| `Base64Api.RaiseStatusOfError` | examples/base64_ffi/python/base64/api.py:8-14 | a status set by `set_error` with a failing code raises `RuntimeError` with exactly the native message; the OK status raises nothing |
| `Base64Api.RaiseStatusFallback` | examples/base64_ffi/python/base64/api.py:12-13 | with an empty native message, the error text is "native error code=" followed by the code in decimal, including the sign |
| `Base64Api.ApiArgs` | examples/base64_ffi/python/base64/api.py:33-40 | `encode` and `decode` pass consistent arguments that every argument check accepts |
| `Base64Api.PyVersion` | examples/base64_ffi/python/base64/api.py:17-21 | `version()` returns "example-1.0.0" |
| `Base64Api.ReadEncoded` | examples/base64_ffi/python/base64/api.py:42-46 | after the native call, `encode` returns exactly when the code is 0 and the output is ASCII, and the text it returns encodes back to the output bytes; a non-zero code raises `RuntimeError`, and non-ASCII output `UnicodeDecodeError` |
| `Base64Api.EncodeResult` | examples/base64_ffi/python/base64/api.py:24-46 | `encode` raises `TypeError` exactly when the data is not bytes-like, and `ValueError` exactly when it is bytes-like but `out_cap` is negative |
| `Base64Api.EncodeResultMeaning` | examples/base64_ffi/python/base64/api.py:24-46 | `encode` returns iff it is given bytes-like data and `0 <= out_cap` with room for `4*ceil(len/3)` characters, and the text it returns is the base64 encoding of the data; with too little room it raises `RuntimeError("output buffer too small")` |
| `Base64Api.PyEncode` | examples/base64_ffi/python/base64/api.py:24-46 | the type check, buffer allocation, native call, status check and read-back of `out[:out_len]` give exactly `EncodeResult` |
| `Base64Api.EncodeIsAscii` | examples/base64_ffi/python/base64/api.py:46 | base64 output is ASCII, so its strict UTF-8 decoding never fails |
| `Base64Api.DefaultCapacity` | examples/base64_ffi/python/base64/api.py:24 | `encode` with the default `out_cap=8192` returns iff it is given bytes-like data of at most 6144 bytes |
| `Base64Api.ReadDecoded` | examples/base64_ffi/python/base64/api.py:67-70 | after the native call, `decode` returns exactly when the status is OK, and then the returned bytes are as many as `*out_len` reports; otherwise it raises `RuntimeError` with a non-empty message |
| `Base64Api.DecodeResult` | examples/base64_ffi/python/base64/api.py:49-70 | `decode` raises `TypeError` exactly when the text is not a `str`, and `ValueError` exactly when it is a `str` but `out_cap` is negative |
| `Base64Api.DecodeResultMeaning` | examples/base64_ffi/python/base64/api.py:49-70 | `decode` returns iff it is given a `str` whose UTF-8 bytes are base64 and whose decoding fits in `out_cap`, and it returns the decoded bytes; otherwise it raises `RuntimeError` "invalid base64 input" or "output buffer too small" |
| `Base64Api.PyDecode` | examples/base64_ffi/python/base64/api.py:49-70 | the type check, UTF-8 encoding, native call, status check and read-back give exactly `DecodeResult` |
| `Base64Api.NonAsciiIsNotBase64` | examples/base64_ffi/python/base64/api.py:53 | the UTF-8 encoding of a string with a non-ASCII character is never valid base64 |
| `Base64Api.DecodeNonAscii` | examples/base64_ffi/python/base64/api.py:49-68 | `decode` of any string with a non-ASCII character raises `RuntimeError("invalid base64 input")` |
| `Base64Api.ApiRoundTrip` | examples/base64_ffi/python/base64/api.py:24-70 | when `encode` returns, `decode` of its result with room for the original bytes returns exactly those bytes |

## Left out

- TextBytes.DecodeStrict is exact only for ASCII bytes: it fails on any byte at or above 0x80, where Python's strict decoding accepts valid multibyte sequences. Base64 text is ASCII (`EncodeIsAscii`), so `encode` never reaches that difference.
- TextBytes.DecodeReplace is exact only for ASCII bytes: it turns each byte at or above 0x80 into U+FFFD, where Python decodes valid multibyte sequences and replaces per malformed sequence. All the messages of the native code are ASCII.
- TextBytes.Utf8Encode: Python strings holding lone surrogates are not representable, because a Dafny `char` is a Unicode scalar value. On such strings `text.encode("utf-8")` (examples/base64_ffi/python/base64/api.py:53) raises `UnicodeEncodeError` before any native call; that path is not modelled.
- NativeLoader.DecodeVixStr requires a readable view: `len` bytes within the buffer, none of them NUL, and a NUL after them. ctypes copies a `c_char_p` field only up to its first NUL, so `string_at` with a longer `len` reads past that copy. The status messages the native code stores are all readable (`ErrorStatusReadsBack`).
- **Path handling.**
  - `Path(part)` normalisation and `Path(__file__).resolve().parent` are not modelled. Candidates are plain strings, and the module directory is a parameter.
  - `base / fname` is modelled as joining with "\\" on Windows and "/" elsewhere.
- **Exception texts.**
  - The text of the exception that `ctypes.CDLL` raises is the oracle's failure reason.
  - The model's `ValueError` constructor omits the message that the `ValueError` raised by ctypes for a negative `out_cap` carries (examples/base64_ffi/python/base64/api.py:29 and :54).
  - A `bytes` object larger than memory, and `out_cap` values that do not fit in `size_t`, are not modelled. Sizes are unbounded `nat`, so `size_t` overflow in `4*ceil(len/3)` is not modelled either.
- **The template's `try`/`catch` paths** (templates/lib_ffi/src/__pkg___ffi.cpp:78-87). Nothing in the copy logic throws, so the "unknown native exception" status is unreachable.
- **`memcpy` overlap.** `CopyBytes` lets `dst` and `src` be the same array and then copies correctly, although `memcpy` leaves full aliasing undefined. Partial overlap (two offset pointers into one buffer) cannot be expressed, because a Dafny array carries no offset.
- **The `ctypes` binding of entry points** (`_bind` and the module-level `base64_*` function objects, examples/base64_ffi/python/base64/_native.py:77-115). The attribute lookup and the `restype`/`argtypes` setup are foreign calls, and the model calls the entry-point methods directly. Each `_bind` calls `_get_lib()` (line 78), and it runs three times at module level (lines 85-115), so the library is loaded eagerly when the module is imported: the first call loads it, and the next two find it cached. A load failure therefore surfaces as the `import` itself raising `RuntimeError`, and `encode`, `decode` and `version` never run without a loaded library. `NativeModule.GetLib` models each of these calls; the import-time sequence of three calls is not a separate member.
- **Thread safety of `_lib`.** The module has no locking, and the model is single-threaded. `NativeModule.loads` is a ghost count of calls to `load_library`.
- **`VIX_STATUS_ERROR` and `VIX_STATUS_NOT_SUPPORTED`** are declared but never produced by the modelled code. Only their values are modelled.
- **`vix_buf`, `vix_mut_buf` and `vix_ffi_memory.h`.** The first two are declared as datatypes with no operations. `vix_ffi_memory.h`, an allocator of function pointers, is not part of this model.
- **Not part of this model:** the ABI checking tool, the Python package generator, the ABI size tests and the export macros. They are build-time or platform-specific. The generator's README text lists a package-directory-first search order; the model follows the order the loader code implements.
