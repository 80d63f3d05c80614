/**
 * The plain C records that cross the native boundary: borrowed string and
 * byte views. They carry no behaviour; a `const char *` is modelled as
 * either null or the NUL-terminated bytes it points at in static storage,
 * and a byte pointer as a (possibly null) array.
 */
module VixTypes {
  import opened TextBytes

  /** A `const char *`: null, or the start of a NUL-terminated string literal. */
  datatype CharPtr = Null | Static(bytes: seq<byte>)

  /** `vix_str`: a non-owning view of `len` bytes at `ptr`. */
  datatype VixStr = VixStr(ptr: CharPtr, len: nat)

  /** `vix_buf`: a non-owning read-only view of `len` bytes. */
  datatype VixBuf = VixBuf(ptr: array?<byte>, len: nat)

  /** `vix_mut_buf`: a writable region of `cap` bytes owned by the caller. */
  datatype VixMutBuf = VixMutBuf(ptr: array?<byte>, cap: nat)

  /** The view does not reach past the storage it points into. */
  predicate InBounds(s: VixStr)
  {
    s.ptr.Static? ==> s.len <= |s.ptr.bytes|
  }

  /** The bytes a view designates; a null view designates none. */
  function ViewBytes(s: VixStr): (r: seq<byte>)
    requires InBounds(s)
    ensures s.ptr.Static? ==> |r| == s.len
    ensures s.ptr.Null? ==> r == []
  {
    if s.ptr.Null? then [] else s.ptr.bytes[..s.len]
  }
}
