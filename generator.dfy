/** The generator of src/varify.c: the same accumulator loop run on a fixed
    identifier, with the serial formatted into a 32-byte buffer. */
module Generator {
  import opened CString
  import opened SerialCodec

  /** The loop and `sprintf` of the generator's `main` for an identifier:
      the buffer it fills holds the serial `validate_serial` accepts. */
  method GenerateSerial(email: array<byte>) returns (serial: array<byte>)
    requires HasNul(email[..])
    ensures serial.Length == 32 && HasNul(serial[..])
    ensures Contents(serial[..]) == Derive(Contents(email[..]))
  {
    ghost var id := Contents(email[..]);
    var hashA: u32 := 0;  // local_44
    var hashB: u32 := 0;  // local_40
    var i: nat := 0;      // local_3c
    while i < Strlen(email[..])
      invariant i <= |id|
      invariant hashA == HashA(id[..i]) && hashB == HashB(id[..i])
      decreases |id| - i
    {
      assert id[..i + 1][..i] == id[..i] && id[i] == email[i];
      hashA := StepA(hashA, email[i]);
      hashB := StepB(hashB, email[i]);
      i := i + 1;
    }
    assert id[..i] == id;
    serial := new byte[32];
    FormatSerialShape(hashA, hashB);
    var _ := SprintfSerial(serial, hashA, hashB);
  }

  /** The generator's `main`: the identifier literal "pr0cracker" yields
      the serial "1f68-190d9". */
  method GenerateKnownSerial() returns (serial: seq<byte>)
    ensures serial == Ascii("1f68-190d9")
  {
    var text := Ascii("pr0cracker");
    IdentifierLiteral();
    var email := new byte[|text| + 1](i requires 0 <= i <= |text| => if i < |text| then text[i] else NUL);
    assert email[..] == text + [NUL] + [];
    ContentsOfTerminated(text, []);
    var buffer := GenerateSerial(email);
    serial := Contents(buffer[..]);
    KnownVector(text);
  }
}
