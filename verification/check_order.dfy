// The base64 library and the library template check the same three
// arguments, but not in the same order.

module CheckOrder {
  import opened TextBytes
  import opened FfiGlue
  import Base64Ffi
  import TemplateFfi

  /**
   * A call with a null `in_ptr`, a non-zero `in_len` and a null `out_len`
   * is refused by both base64 entry points for `out_len`, and by the
   * template for its input pointer, with a different status.
   */
  lemma ArgumentOrderDiffers()
    ensures var a := Args(false, 1, [], true, 0, false);
      && FirstFailure(Base64Ffi.ArgChecks(a)) == Some(OutLenNull)
      && Base64Ffi.EncodeCall(a) == Rejected(OutLenNull)
      && Base64Ffi.DecodeCall(a) == Rejected(OutLenNull)
      && TemplateFfi.ProcessCall(a) == Rejected(InPtrNull)
      && TemplateFfi.ProcessCall(a).status != Base64Ffi.EncodeCall(a).status
  {
    var a := Args(false, 1, [], true, 0, false);
    Base64Ffi.EncodeCallChecksInOrder(a);
    Base64Ffi.DecodeCallChecksInOrder(a);
    TemplateFfi.ProcessOrderDiffers();
  }
}
