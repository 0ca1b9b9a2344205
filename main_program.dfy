/** The checker of src/main.c: `validate_serial` recomputes the serial of
    an identifier and compares the candidate with it. */
module MainProgram {
  import opened CString
  import opened SerialCodec

  /** `validate_serial(email, serial)`: folds the two accumulators over the
      identifier, formats them into a 24-byte stack buffer and compares the
      candidate with it as `strcmp` does. The verdict is exactly `Validate`
      on the two C strings. */
  method ValidateSerial(email: array<byte>, serial: array<byte>) returns (ok: bool)
    requires HasNul(email[..]) && HasNul(serial[..])
    ensures ok == Validate(Contents(email[..]), Contents(serial[..]))
  {
    ghost var id := Contents(email[..]);
    var hashA: u32 := 0;  // local_44
    var hashB: u32 := 0;  // local_40
    var i: nat := 0;      // local_3c
    while true
      invariant i <= |id|
      invariant hashA == HashA(id[..i]) && hashB == HashB(id[..i])
      decreases |id| - i
    {
      var len := Strlen(email[..]);
      if len <= i {
        break;
      }
      assert id[..i + 1][..i] == id[..i] && id[i] == email[i];
      hashA := StepA(hashA, email[i]);
      hashB := StepB(hashB, email[i]);
      i := i + 1;
    }
    assert id[..i] == id;
    var local38 := new byte[24];
    FormatSerialShape(hashA, hashB);
    var _ := SprintfSerial(local38, hashA, hashB);
    ok := Contents(serial[..]) == Contents(local38[..]);
  }
}
