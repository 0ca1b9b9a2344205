# Serial checker and generator: a Dafny model

This project models the core of a small license-key program. The program
derives a serial from an identifier (an e-mail address, say). It walks the
identifier byte by byte and updates two unsigned 32-bit accumulators.
`local_44` gains eight times the byte. `local_40` gains the byte squared,
less 0xbc. It then prints both with `"%04x-%04x"`. `validate_serial`
(src/main.c) compares a candidate serial with that string using `strcmp`.
The generator (src/varify.c) runs the same loop on the fixed identifier
`"pr0cracker"` and prints `1f68-190d9`.

Modules:

- `CString` (cstring.dfy): bytes, NUL-terminated buffers, `strlen`, and the
  string that `strcmp` reads from a buffer.
- `SerialCodec` (serial_codec.dfy): the loop's arithmetic, written as pure
  functions `HashA` and `HashB` folded over the identifier. Also the
  closed forms (8·Σb and Σb² − 0xbc·n, both modulo 2^32), the `%04x`
  rendering with its parser, `Derive` and `Validate`, and the `sprintf`
  call that writes the serial into a caller's buffer.
- `MainProgram` (main_program.dfy): `validate_serial` as a method with the
  source's `while` loop. The loop invariants tie the accumulators to
  `HashA`/`HashB` of the bytes read so far. The serial is formatted into a
  24-byte buffer, and the method's verdict is proved equal to `Validate`.
- `Generator` (generator.dfy): the generator's loop, formatting into a
  32-byte buffer, and its known vector.

Modelling choices:

- A plain `char` is taken as signed, as on x86. A byte of 0x80 or more
  enters the arithmetic as a negative number (`CharValue`). The code reads
  `email[i]` as plain `char` (src/main.c:32-33). A reading of bytes as 0
  to 255 would give other accumulator values for such bytes: byte 0xff
  counts as -1 here (`HighByteReadsNegative`). On ASCII identifiers the two
  readings agree. `AsciiSumsAgree` shows that the byte sums are equal, and
  `AsciiHashesUnsigned` combines this with the closed forms: both
  accumulators, and so the serial, equal those of the unsigned reading.
- 0xbc is subtracted once per byte, inside the loop (src/main.c:28-35).
  The empty identifier therefore runs no iteration, and its serial is
  `0000-0000`, not `0000-ffffff44` (`EmptyIdentifier`).
- The accumulators are 32-bit `unsigned int`s (`u32`). Every update is
  reduced modulo 2^32 explicitly. This includes the intermediate store of
  `local_40 + c*c` before 0xbc is subtracted.
- `strcmp(serial, local_38) == 0` is modelled as equality of the two C
  strings' contents.

## Model

| member | source | states |
|---|---|---|
| `CString.Strlen` | src/main.c:29-30 | the length is the index of the first NUL, and no byte before it is NUL |
| `CString.Contents` | src/main.c:39 | the string `strcmp` reads holds no NUL and is followed by the buffer's terminator |
| `CString.ContentsOfTerminated` | src/main.c:37 | a string written with its terminator reads back as that string, whatever follows in the buffer |
| `SerialCodec.CharValue` | src/main.c:32-33 | a plain `char` has a value in -128..127 that is either the byte or the byte minus 256 |
| `SerialCodec.StepA` | src/main.c:32 | one update of `local_44`: the old value plus 8 × the byte's `char` value, stored modulo 2^32 |
| `SerialCodec.StepB` | src/main.c:33 | one update of `local_40`: the old value plus the square of the byte's `char` value, stored modulo 2^32, then 0xbc subtracted modulo 2^32 |
| `SerialCodec.HashA` | src/main.c:28-35 | `local_44` after the loop: `StepA` applied to each byte, first to last, starting from 0 |
| `SerialCodec.HashB` | src/main.c:28-35 | `local_40` after the loop: `StepB` applied to each byte, first to last, starting from 0 |
| `SerialCodec.HashAClosedForm` | src/main.c:32 | after the loop, `local_44` is 8 × the sum of the identifier's bytes, modulo 2^32 |
| `SerialCodec.HashBClosedForm` | src/main.c:33 | after the loop, `local_40` is the sum of squared bytes minus 0xbc per byte, modulo 2^32 |
| `SerialCodec.AsciiSumsAgree` | src/main.c:32-33 | for bytes below 0x80, the signed-`char` sums equal the unsigned ones |
| `SerialCodec.AsciiHashesUnsigned` | src/main.c:32-33 | on ASCII identifiers both accumulators take the closed forms of the unsigned byte reading |
| `SerialCodec.HighByteReadsNegative` | src/main.c:32-33 | byte 0xff counts as -1: `local_44` becomes 0xfffffff8 and `local_40` becomes 0xffffff45 |
| `SerialCodec.SumOfRemove` | src/main.c:32-33 | taking one byte out of an identifier removes exactly that byte's term from a byte sum |
| `SerialCodec.SumOfPermutation` | src/main.c:32-33 | a byte sum depends only on the multiset of bytes |
| `SerialCodec.DerivePermutation` | src/main.c:32-37 | permuting the identifier's bytes leaves the derived serial unchanged |
| `SerialCodec.Hex` | src/main.c:37 | `%x` gives at least one lowercase hex digit, with no leading zero unless the value is zero |
| `SerialCodec.HexValueOfHex` | src/main.c:37 | the hex digits of a value read back as that value |
| `SerialCodec.HexValueZeros` | src/main.c:37 | zero padding on the left does not change the value the digits read as |
| `SerialCodec.HexLength` | src/main.c:37 | a value below 16^k has at most k hex digits |
| `SerialCodec.Hex04` | src/main.c:37 | `%04x`: the minimal lowercase hex digits, left-padded with `0` to four digits when shorter |
| `SerialCodec.Hex04RoundTrip` | src/main.c:37 | `%04x` of an `unsigned int` is 4 to 8 lowercase hex digits that read back as the value, so it is never truncated. It is exactly 4 digits for values below 0x10000, and a field longer than 4 digits does not start with `0` |
| `SerialCodec.FormatSerial` | src/main.c:37 | `%04x-%04x`: the first accumulator's `%04x`, a hyphen, then the second's |
| `SerialCodec.JoinedFields` | src/main.c:37 | in two hex runs joined by `-`, the joining hyphen is the first one, and the runs are recovered around it |
| `SerialCodec.FormatSerialShape` | src/main.c:26-37 | `%04x-%04x` is 9 to 17 bytes, so it fits `local_38[24]` with its NUL. It is lowercase hex except for one hyphen, at index 4 or later, and has no NUL |
| `SerialCodec.FormatSerialRoundTrip` | src/main.c:37 | parsing the formatted serial gives back both accumulator values |
| `SerialCodec.FormatSerialInjective` | src/main.c:37-40 | two pairs of accumulators format to the same serial only if they are equal |
| `SerialCodec.Derive` | src/main.c:28-37 | the serial of an identifier is 9 to 17 bytes with no NUL, and it parses back to the identifier's two accumulators |
| `SerialCodec.DeriveDeterminesHashes` | src/main.c:32-40 | two identifiers derive the same serial if and only if both accumulators agree |
| `SerialCodec.Validate` | src/main.c:37-40 | an accepted candidate is 9 to 17 bytes, has at least four digits before its hyphen, and parses to the identifier's two accumulators |
| `SerialCodec.ValidateRejectsForeignByte` | src/main.c:37-40 | a candidate with a byte that is neither lowercase hex nor the hyphen (an uppercase digit, say) is rejected |
| `SerialCodec.ValidateRejectsUnpadded` | src/main.c:37-40 | a candidate with fewer than four digits before its first hyphen is rejected |
| `SerialCodec.ValidateRejectsExtraZeroFirst` | src/main.c:37-40 | a candidate whose first field has more than four digits and starts with `0` is rejected |
| `SerialCodec.ValidateRejectsExtraZeroSecond` | src/main.c:37-40 | a candidate whose field after the first hyphen has more than four digits and starts with `0` is rejected |
| `SerialCodec.EmptyIdentifier` | src/main.c:23-37 | the empty identifier leaves both accumulators at zero, with no 0xbc subtracted, and derives `0000-0000` |
| `SerialCodec.PrCrackerSum` | src/varify.c:23 | the bytes of `pr0cracker` sum to 1005 |
| `SerialCodec.PrCrackerSquares` | src/varify.c:23 | the squares of the bytes of `pr0cracker` sum to 104497 |
| `SerialCodec.PrCrackerHashes` | src/varify.c:30-34 | ten bytes with those sums leave `local_44` = 0x1f68 and `local_40` = 0x190d9 |
| `SerialCodec.KnownVectorFirstField` | src/varify.c:35 | `%04x` of 0x1f68 is `1f68` |
| `SerialCodec.KnownVectorSecondField` | src/varify.c:44 | `%04x` of 0x190d9 is the five digits `190d9`, not truncated |
| `SerialCodec.KnownVectorFormat` | src/varify.c:35 | `%04x-%04x` of 0x1f68 and 0x190d9 is `1f68-190d9` |
| `SerialCodec.KnownVector` | src/varify.c:43-44 | `pr0cracker` derives `1f68-190d9` |
| `SerialCodec.KnownVectorRejectsVariants` | src/varify.c:43-44 | for `pr0cracker`, `1F68-190D9` and `f68-190d9` are both rejected |
| `SerialCodec.KnownVectorRejectsExtraZeros` | src/varify.c:43-44 | for `pr0cracker`, `01f68-190d9` and `1f68-0190d9` are both rejected |
| `CString.WriteString` | src/main.c:37 | the formatted text and its NUL are stored at the start of the buffer, and the rest of the buffer is unchanged |
| `SerialCodec.SprintfSerial` | src/main.c:37 | `sprintf` writes the serial and its NUL at the start of the buffer, returns the serial's length, and leaves the rest of the buffer unchanged |
| `MainProgram.ValidateSerial` | src/main.c:22-41 | the loop visits the identifier's bytes once each, in order, up to `strlen`. The verdict is true if and only if the candidate C string equals the identifier's derived serial |
| `Generator.GenerateSerial` | src/varify.c:24-35 | the generator's loop and `sprintf` leave a 32-byte buffer holding the identifier's derived serial, the one `validate_serial` accepts |
| `Generator.GenerateKnownSerial` | src/varify.c:22-44 | the generator run on `pr0cracker` produces `1f68-190d9` |

## Left out

- `read_line` (src/main.c:8-19) is not modelled. It does `malloc` and `fgets` on standard input and strips the newline, which is I/O. The identifier and candidate reach the model as buffers.
- `main` in src/main.c:44-65 is not modelled. Its prompts, banners, `puts` and `free` are I/O and memory management.
- The `printf` calls in the generator (src/varify.c:37-38) are output only. `Generator.GenerateKnownSerial` returns the serial instead of printing it.
- The `validate_serial` in src/varify.c:5-20 is not modelled. Its `sprintf` is commented out, so it compares with an uninitialised buffer, which is undefined behaviour.
- The loop counter `local_3c` is a C `int`. Its overflow after 2^31 bytes (undefined behaviour) is not modelled: the counter is an unbounded `nat`.
- A platform whose `char` is unsigned is not modelled. Bytes of 0x80 and above follow the signed reading. `AsciiSumsAgree` shows that both readings agree on ASCII identifiers.
- `strcmp` is modelled only as its `== 0` outcome, which is all the program uses. Its ordering of unequal strings is not modelled.
