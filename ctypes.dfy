/** The one piece of ctypes the older decoders use: a C char buffer read back as a C string. */
module CTypes {
  import opened Wire

  /**
   * `ctypes.c_buffer(init, size).value`: a zero-filled buffer of size bytes that
   * starts with init, read as a C string, so up to its first NUL. The call site
   * passes at most size bytes, so the too-long case cannot arise.
   */
  function CBufferValue(init: seq<byte>, size: nat): seq<byte>
    requires |init| <= size
  {
    TakeUntilNul(init + Zeros(size - |init|))
  }

  /** The zero fill adds nothing: the value is init up to its first NUL. */
  lemma {:induction false} CBufferValueCut(init: seq<byte>, size: nat)
    requires |init| <= size
    ensures CBufferValue(init, size) == TakeUntilNul(init)
  {
    var z := Zeros(size - |init|);
    if init == [] {
      assert init + z == z;
      assert z != [] ==> z[0] == 0;
    } else if init[0] != 0 {
      assert (init + z)[1..] == init[1..] + z;
      CBufferValueCut(init[1..], size - 1);
    }
  }

  /**
   * `ctypes.c_buffer(init, size).value`: allocates the char buffer and reads it
   * back as a C string. It is the step the decoding loops execute; CBufferValue
   * is the function that specifies it.
   */
  method CBuffer(init: seq<byte>, size: nat) returns (value: seq<byte>)
    requires |init| <= size
    ensures value == TakeUntilNul(init)
  {
    value := CBufferValue(init, size);
    CBufferValueCut(init, size);
  }
}
