/** The serial derivation shared by `validate_serial` (src/main.c) and the
    generator (src/varify.c): two unsigned 32-bit accumulators folded over
    the identifier's bytes, rendered with `"%04x-%04x"`. */
module SerialCodec {
  import opened CString

  const TWO32: int := 0x1_0000_0000

  /** `unsigned int` on the platforms the program targets. */
  newtype u32 = x: int | 0 <= x < 0x1_0000_0000

  /** Conversion of any integer to `unsigned int`: reduction modulo 2^32. */
  function Wrap(x: int): u32 {
    (x % TWO32) as u32
  }

  /** The value of a plain `char` in an arithmetic expression. The model
      takes `char` as signed, as on x86: bytes 0x80..0xff read as negative. */
  function CharValue(b: byte): (v: int)
    ensures -128 <= v < 128
    ensures v == b as int || v == b as int - 256
  {
    if b < 128 then b as int else b as int - 256
  }

  /** One update of `local_44`: `local_44 + email[i] * 8`. */
  function StepA(h: u32, b: byte): u32 {
    Wrap(h as int + CharValue(b) * 8)
  }

  /** One update of `local_40`: the sum with the square is stored as
      unsigned, then `0xbc` is subtracted with unsigned wrap-around. */
  function StepB(h: u32, b: byte): u32 {
    Wrap(Wrap(h as int + CharValue(b) * CharValue(b)) as int - 0xbc)
  }

  /** `local_44` after the loop has consumed the bytes `s`, first to last. */
  function HashA(s: seq<byte>): u32 {
    if s == [] then 0 else StepA(HashA(s[..|s| - 1]), s[|s| - 1])
  }

  /** `local_40` after the loop has consumed the bytes `s`, first to last. */
  function HashB(s: seq<byte>): u32 {
    if s == [] then 0 else StepB(HashB(s[..|s| - 1]), s[|s| - 1])
  }

  /** Sum of `f` over the bytes of `s`. */
  function SumOf(s: seq<byte>, f: byte -> int): int {
    if s == [] then 0 else SumOf(s[..|s| - 1], f) + f(s[|s| - 1])
  }

  function Square(b: byte): int {
    CharValue(b) * CharValue(b)
  }

  /** The reading of a byte as unsigned, 0 to 255. */
  function UnsignedValue(b: byte): int {
    b as int
  }

  function UnsignedSquare(b: byte): int {
    b as int * b as int
  }

  /** On identifiers of ASCII bytes (below 0x80) the signed-`char` sums
      equal the unsigned ones, so the serial does not depend on whether the
      platform's `char` is signed. */
  lemma {:induction false} AsciiSumsAgree(s: seq<byte>)
    requires forall i :: 0 <= i < |s| ==> s[i] < 128
    ensures SumOf(s, CharValue) == SumOf(s, UnsignedValue)
    ensures SumOf(s, Square) == SumOf(s, UnsignedSquare)
  {
    if s != [] {
      AsciiSumsAgree(s[..|s| - 1]);
    }
  }

  /** On ASCII identifiers the accumulators take the closed forms of the
      unsigned reading: the serial is the one a platform with unsigned
      `char` would derive. */
  lemma AsciiHashesUnsigned(s: seq<byte>)
    requires forall i :: 0 <= i < |s| ==> s[i] < 128
    ensures HashA(s) as int == (8 * SumOf(s, UnsignedValue)) % TWO32
    ensures HashB(s) as int == (SumOf(s, UnsignedSquare) - 0xbc * |s|) % TWO32
  {
    AsciiSumsAgree(s);
    HashAClosedForm(s);
    HashBClosedForm(s);
  }

  /** A byte at or above 0x80 reads as negative: 0xff counts as -1, so it
      takes 8 from `local_44` and adds 1 - 0xbc to `local_40`, both wrapping. */
  lemma HighByteReadsNegative(e: seq<byte>)
    requires e == [0xff]
    ensures HashA(e) == 0xffff_fff8 && HashB(e) == 0xffff_ff45
  {
    assert e[..0] == [];
    assert CharValue(0xff) == -1;
  }

  lemma ModAdd(x: int, y: int)
    ensures (x % TWO32 + y) % TWO32 == (x + y) % TWO32
  {
    var q := x / TWO32;
    assert x == q * TWO32 + x % TWO32;
    assert (x + y) == (x % TWO32 + y) + q * TWO32;
  }

  /** Closed form of `local_44`: eight times the byte sum, modulo 2^32. */
  lemma {:induction false} HashAClosedForm(s: seq<byte>)
    ensures HashA(s) as int == (8 * SumOf(s, CharValue)) % TWO32
  {
    if s != [] {
      var p, v := s[..|s| - 1], CharValue(s[|s| - 1]);
      var x := 8 * SumOf(p, CharValue);
      HashAClosedForm(p);
      assert HashA(s) == StepA(HashA(p), s[|s| - 1]);
      assert HashA(p) as int == x % TWO32;
      assert StepA(HashA(p), s[|s| - 1]) == Wrap(HashA(p) as int + v * 8);
      assert HashA(s) as int == (x % TWO32 + v * 8) % TWO32;
      ModAdd(x, v * 8);
      assert x + v * 8 == 8 * SumOf(s, CharValue);
    }
  }

  /** Closed form of `local_40`: the sum of squares minus 0xbc once per
      byte, modulo 2^32. */
  lemma {:induction false} HashBClosedForm(s: seq<byte>)
    ensures HashB(s) as int == (SumOf(s, Square) - 0xbc * |s|) % TWO32
  {
    if s != [] {
      var p := s[..|s| - 1];
      var x := SumOf(p, Square) - 0xbc * |p|;
      var sq := Square(s[|s| - 1]);
      HashBClosedForm(p);
      ModAdd(x, sq);
      ModAdd(x + sq, -0xbc);
    }
  }

  /** Permuting the bytes leaves any byte sum unchanged: removing one byte
      anywhere takes away exactly its own term. */
  lemma {:induction false} SumOfRemove(s: seq<byte>, j: nat, f: byte -> int)
    requires j < |s|
    ensures SumOf(s, f) == SumOf(s[..j] + s[j + 1..], f) + f(s[j])
  {
    var u := s[..j] + s[j + 1..];
    if j == |s| - 1 {
      assert u == s[..|s| - 1];
    } else {
      var p := s[..|s| - 1];
      SumOfRemove(p, j, f);
      assert u[..|u| - 1] == p[..j] + p[j + 1..];
      assert u[|u| - 1] == s[|s| - 1];
    }
  }

  lemma MultisetRemove(t: seq<byte>, j: nat)
    requires j < |t|
    ensures multiset(t) == multiset(t[..j] + t[j + 1..]) + multiset{t[j]}
  {
    assert t == t[..j] + [t[j]] + t[j + 1..];
  }

  lemma {:induction false} SumOfPermutation(s: seq<byte>, t: seq<byte>, f: byte -> int)
    requires multiset(s) == multiset(t)
    ensures SumOf(s, f) == SumOf(t, f)
    decreases |s|
  {
    if s == [] {
      assert |t| == |multiset(t)| == 0;
    } else {
      var p, x := s[..|s| - 1], s[|s| - 1];
      MultisetRemove(s, |s| - 1);
      assert x in multiset(t);
      var j :| 0 <= j < |t| && t[j] == x;
      var u := t[..j] + t[j + 1..];
      MultisetRemove(t, j);
      assert s[..|s| - 1] + s[|s|..] == p;
      assert multiset(p) == multiset(u) by {
        forall y: byte ensures multiset(p)[y] == multiset(u)[y] {
          assert (multiset(p) + multiset{x})[y] == (multiset(u) + multiset{x})[y];
        }
      }
      SumOfPermutation(p, u, f);
      SumOfRemove(t, j, f);
    }
  }

  /** The hyphen that separates the two fields of a serial. */
  const DASH: byte := 45

  /** The digits `%x` emits: `0`-`9` and lowercase `a`-`f`. */
  predicate IsLowerHex(c: byte) {
    48 <= c <= 57 || 97 <= c <= 102
  }

  predicate AllLowerHex(s: seq<byte>) {
    forall i :: 0 <= i < |s| ==> IsLowerHex(s[i])
  }

  function DigitValue(c: byte): (d: nat)
    requires IsLowerHex(c)
    ensures d < 16
  {
    if c <= 57 then (c - 48) as nat else (c - 87) as nat
  }

  /** The lowercase hex digit for `d`; `DigitValue` reads it back. */
  function HexDigit(d: nat): (c: byte)
    requires d < 16
    ensures IsLowerHex(c) && DigitValue(c) == d
  {
    if d < 10 then (48 + d) as byte else (87 + d) as byte
  }

  /** The value of a string of lowercase hex digits, most significant first. */
  function HexValue(s: seq<byte>): nat
    requires AllLowerHex(s)
  {
    if s == [] then 0 else HexValue(s[..|s| - 1]) * 16 + DigitValue(s[|s| - 1])
  }

  /** `%x`: the lowercase hex digits of `x` with no leading zero
      (a single `0` for zero). */
  function Hex(x: nat): (r: seq<byte>)
    ensures 1 <= |r| && AllLowerHex(r)
    ensures x > 0 ==> r[0] != 48
  {
    if x < 16 then [HexDigit(x)] else Hex(x / 16) + [HexDigit(x % 16)]
  }

  /** `n` padding zeros. */
  function Zeros(n: nat): seq<byte> {
    if n == 0 then [] else [48] + Zeros(n - 1)
  }

  /** Left padding with `0` up to width `w`; a longer string is kept whole. */
  function ZeroPad(s: seq<byte>, w: nat): seq<byte> {
    if |s| >= w then s else Zeros(w - |s|) + s
  }

  /** `%04x`: at least four lowercase hex digits, zero-padded, never cut. */
  function Hex04(x: u32): seq<byte> {
    ZeroPad(Hex(x as nat), 4)
  }

  /** `%04x-%04x`. */
  function FormatSerial(a: u32, b: u32): seq<byte> {
    Hex04(a) + [DASH] + Hex04(b)
  }

  function Pow16(k: nat): nat {
    if k == 0 then 1 else 16 * Pow16(k - 1)
  }

  lemma {:induction false} HexValueOfHex(x: nat)
    ensures HexValue(Hex(x)) == x
    decreases x
  {
    if x >= 16 {
      var r := Hex(x);
      assert r[..|r| - 1] == Hex(x / 16);
      HexValueOfHex(x / 16);
    }
  }

  lemma {:induction false} HexValueLeadingZero(s: seq<byte>)
    requires AllLowerHex(s)
    ensures AllLowerHex([48] + s) && HexValue([48] + s) == HexValue(s)
  {
    var z := [48 as byte] + s;
    if s != [] {
      assert z[..|z| - 1] == [48] + s[..|s| - 1];
      HexValueLeadingZero(s[..|s| - 1]);
    } else {
      assert z[..0] == [];
    }
  }

  lemma {:induction false} HexValueZeros(n: nat, s: seq<byte>)
    requires AllLowerHex(s)
    ensures |Zeros(n) + s| == n + |s|
    ensures AllLowerHex(Zeros(n) + s) && HexValue(Zeros(n) + s) == HexValue(s)
  {
    if n == 0 {
      assert Zeros(n) + s == s;
    } else {
      HexValueZeros(n - 1, s);
      assert Zeros(n) + s == [48] + (Zeros(n - 1) + s);
      HexValueLeadingZero(Zeros(n - 1) + s);
    }
  }

  lemma {:induction false} HexLength(x: nat, k: nat)
    requires 1 <= k && x < Pow16(k)
    ensures |Hex(x)| <= k
  {
    if x >= 16 {
      assert k >= 2;
      HexLength(x / 16, k - 1);
    }
  }

  /** `%04x` of an `unsigned int`: four to eight lowercase digits that read
      back as the value. */
  lemma Hex04RoundTrip(x: u32)
    ensures 4 <= |Hex04(x)| <= 8 && AllLowerHex(Hex04(x))
    ensures x < 0x1_0000 ==> |Hex04(x)| == 4
    ensures |Hex04(x)| > 4 ==> Hex04(x)[0] != 48
    ensures HexValue(Hex04(x)) == x as int
  {
    assert Pow16(8) == TWO32;
    HexLength(x as nat, 8);
    if x < 0x1_0000 {
      assert Pow16(4) == 0x1_0000;
      HexLength(x as nat, 4);
    }
    HexValueOfHex(x as nat);
    var h := Hex(x as nat);
    if |h| < 4 {
      HexValueZeros(4 - |h|, h);
    }
  }

  datatype Option<T> = None | Some(value: T)

  /** Index of the first hyphen of `t`, or `|t|` when there is none. */
  function FindDash(t: seq<byte>): (k: nat)
    ensures k <= |t| && (k < |t| ==> t[k] == DASH)
    ensures forall i :: 0 <= i < k ==> t[i] != DASH
  {
    if t == [] then 0
    else if t[0] == DASH then 0
    else 1 + FindDash(t[1..])
  }

  /** Reads a serial back into its two accumulator values: two non-empty
      runs of lowercase hex digits around the first hyphen, each below 2^32. */
  function ParseSerial(t: seq<byte>): Option<(u32, u32)> {
    var k := FindDash(t);
    if k == |t| then None
    else
      var left, right := t[..k], t[k + 1..];
      if left == [] || right == [] || !AllLowerHex(left) || !AllLowerHex(right) then None
      else
        var a, b := HexValue(left), HexValue(right);
        if a < TWO32 && b < TWO32 then Some((a as u32, b as u32)) else None
  }

  /** Two runs of lowercase hex digits joined by a hyphen: the first
      hyphen is the joining one, and the runs are recovered around it. */
  lemma {:induction false} JoinedFields(left: seq<byte>, right: seq<byte>)
    requires AllLowerHex(left) && AllLowerHex(right)
    ensures FindDash(left + [DASH] + right) == |left|
    ensures (left + [DASH] + right)[..|left|] == left
    ensures (left + [DASH] + right)[|left| + 1..] == right
    ensures forall i :: 0 <= i < |left + [DASH] + right| ==>
              IsLowerHex((left + [DASH] + right)[i]) || i == |left|
  {
    var t := left + [DASH] + right;
    assert t[|left|] == DASH;
    assert t[..|left|] == left;
    assert t[|left| + 1..] == right;
    forall i | 0 <= i < |t| ensures IsLowerHex(t[i]) || i == |left| {
      if i < |left| { assert t[i] == left[i]; }
      else if i > |left| { assert t[i] == right[i - |left| - 1]; }
    }
  }

  /** The rendered serial is 9 to 17 characters of lowercase hex around a
      single hyphen, with at least four digits before it. */
  lemma FormatSerialShape(a: u32, b: u32)
    ensures 9 <= |FormatSerial(a, b)| <= 17
    ensures FindDash(FormatSerial(a, b)) == |Hex04(a)| >= 4
    ensures forall i :: 0 <= i < |FormatSerial(a, b)| ==>
              IsLowerHex(FormatSerial(a, b)[i]) || i == |Hex04(a)|
    ensures NoNul(FormatSerial(a, b))
  {
    Hex04RoundTrip(a);
    Hex04RoundTrip(b);
    JoinedFields(Hex04(a), Hex04(b));
  }

  /** Parsing the rendered serial gives back the two values. */
  lemma FormatSerialRoundTrip(a: u32, b: u32)
    ensures ParseSerial(FormatSerial(a, b)) == Some((a, b))
  {
    Hex04RoundTrip(a);
    Hex04RoundTrip(b);
    JoinedFields(Hex04(a), Hex04(b));
  }

  lemma FormatSerialInjective(a: u32, b: u32, c: u32, d: u32)
    requires FormatSerial(a, b) == FormatSerial(c, d)
    ensures a == c && b == d
  {
    FormatSerialRoundTrip(a, b);
    FormatSerialRoundTrip(c, d);
  }

  /** The serial derived from an identifier (the bytes before its
      terminator): `sprintf("%04x-%04x", local_44, local_40)` after the loop. */
  function Derive(email: seq<byte>): (serial: seq<byte>)
    ensures 9 <= |serial| <= 17 && NoNul(serial)
    ensures ParseSerial(serial) == Some((HashA(email), HashB(email)))
  {
    FormatSerialShape(HashA(email), HashB(email));
    FormatSerialRoundTrip(HashA(email), HashB(email));
    FormatSerial(HashA(email), HashB(email))
  }

  /** Two identifiers derive the same serial exactly when both accumulators
      agree. */
  lemma DeriveDeterminesHashes(s: seq<byte>, t: seq<byte>)
    ensures Derive(s) == Derive(t) <==> HashA(s) == HashA(t) && HashB(s) == HashB(t)
  {
    if Derive(s) == Derive(t) {
      FormatSerialInjective(HashA(s), HashB(s), HashA(t), HashB(t));
    }
  }

  /** The serial depends only on the multiset of the identifier's bytes. */
  lemma DerivePermutation(s: seq<byte>, t: seq<byte>)
    requires multiset(s) == multiset(t)
    ensures Derive(s) == Derive(t)
  {
    assert |s| == |multiset(s)| == |t|;
    SumOfPermutation(s, t, CharValue);
    SumOfPermutation(s, t, Square);
    HashAClosedForm(s);
    HashAClosedForm(t);
    HashBClosedForm(s);
    HashBClosedForm(t);
    assert HashA(s) == HashA(t) && HashB(s) == HashB(t);
  }

  /** `validate_serial`'s verdict: the candidate equals the derived serial,
      byte for byte. */
  function Validate(email: seq<byte>, serial: seq<byte>): (ok: bool)
    ensures ok ==> 9 <= |serial| <= 17
    ensures ok ==> ParseSerial(serial) == Some((HashA(email), HashB(email)))
    ensures ok ==> FindDash(serial) >= 4
  {
    FormatSerialShape(HashA(email), HashB(email));
    FormatSerialRoundTrip(HashA(email), HashB(email));
    serial == Derive(email)
  }

  /** A candidate whose first field is longer than four digits and starts
      with `0` is rejected: `%04x` pads only up to four digits. */
  lemma ValidateRejectsExtraZeroFirst(email: seq<byte>, serial: seq<byte>)
    requires FindDash(serial) > 4 && serial[0] == 48
    ensures !Validate(email, serial)
  {
    var ha, hb := Hex04(HashA(email)), Hex04(HashB(email));
    Hex04RoundTrip(HashA(email));
    Hex04RoundTrip(HashB(email));
    JoinedFields(ha, hb);
  }

  /** The same for the second field, after the first hyphen. */
  lemma ValidateRejectsExtraZeroSecond(email: seq<byte>, serial: seq<byte>)
    requires FindDash(serial) + 5 < |serial| && serial[FindDash(serial) + 1] == 48
    ensures !Validate(email, serial)
  {
    var ha, hb := Hex04(HashA(email)), Hex04(HashB(email));
    Hex04RoundTrip(HashA(email));
    Hex04RoundTrip(HashB(email));
    JoinedFields(ha, hb);
  }

  /** A candidate holding any byte other than a lowercase hex digit, outside
      the separator, is rejected: the comparison does not fold case. */
  lemma {:induction false} ValidateRejectsForeignByte(email: seq<byte>, serial: seq<byte>, i: nat)
    requires i < |serial| && !IsLowerHex(serial[i]) && serial[i] != DASH
    ensures !Validate(email, serial)
  {
    FormatSerialShape(HashA(email), HashB(email));
  }

  /** A candidate whose first field has fewer than four digits is rejected:
      `%04x` always pads. */
  lemma {:induction false} ValidateRejectsUnpadded(email: seq<byte>, serial: seq<byte>)
    requires FindDash(serial) < 4
    ensures !Validate(email, serial)
  {
    FormatSerialShape(HashA(email), HashB(email));
  }

  /** The empty identifier runs no iteration: neither accumulator moves and
      no 0xbc is subtracted. */
  lemma EmptyIdentifier(e: seq<byte>)
    requires e == []
    ensures HashA(e) == 0 && HashB(e) == 0
    ensures Derive(e) == Ascii("0000-0000")
  {
    ZeroSerial(HashA(e), HashB(e));
  }

  lemma ZeroSerial(a: u32, b: u32)
    requires a == 0 && b == 0
    ensures FormatSerial(a, b) == Ascii("0000-0000")
  {
    assert Hex(0) == [48];
    assert Zeros(3) == [48, 48, 48];
    assert Hex04(a) == [48, 48, 48, 48] && Hex04(b) == [48, 48, 48, 48];
    assert Ascii("0000-0000") == [48, 48, 48, 48, 45, 48, 48, 48, 48];
  }

  lemma SumOfSnoc(p: seq<byte>, x: byte, f: byte -> int)
    ensures SumOf(p + [x], f) == SumOf(p, f) + f(x)
  {
    assert (p + [x])[..|p|] == p;
  }

  /** The byte sum of "pr0cracker", one byte appended at a time. */
  lemma PrCrackerSum(e: seq<byte>)
    requires e == [112, 114, 48, 99, 114, 97, 99, 107, 101, 114]
    ensures SumOf(e, CharValue) == 1005
  {
    var p: seq<byte> := [];
    SumOfSnoc(p, 112, CharValue);
    p := p + [112];
    assert SumOf(p, CharValue) == 112;
    SumOfSnoc(p, 114, CharValue);
    p := p + [114];
    assert SumOf(p, CharValue) == 226;
    SumOfSnoc(p, 48, CharValue);
    p := p + [48];
    assert SumOf(p, CharValue) == 274;
    SumOfSnoc(p, 99, CharValue);
    p := p + [99];
    assert SumOf(p, CharValue) == 373;
    SumOfSnoc(p, 114, CharValue);
    p := p + [114];
    assert SumOf(p, CharValue) == 487;
    SumOfSnoc(p, 97, CharValue);
    p := p + [97];
    assert SumOf(p, CharValue) == 584;
    SumOfSnoc(p, 99, CharValue);
    p := p + [99];
    assert SumOf(p, CharValue) == 683;
    SumOfSnoc(p, 107, CharValue);
    p := p + [107];
    assert SumOf(p, CharValue) == 790;
    SumOfSnoc(p, 101, CharValue);
    p := p + [101];
    assert SumOf(p, CharValue) == 891;
    SumOfSnoc(p, 114, CharValue);
    p := p + [114];
    assert SumOf(p, CharValue) == 1005;
    assert p == e;
  }

  /** The sum of squared bytes of "pr0cracker", one byte appended at a time. */
  lemma PrCrackerSquares(e: seq<byte>)
    requires e == [112, 114, 48, 99, 114, 97, 99, 107, 101, 114]
    ensures SumOf(e, Square) == 104497
  {
    var p: seq<byte> := [];
    SumOfSnoc(p, 112, Square);
    p := p + [112];
    assert SumOf(p, Square) == 12544;
    SumOfSnoc(p, 114, Square);
    p := p + [114];
    assert SumOf(p, Square) == 25540;
    SumOfSnoc(p, 48, Square);
    p := p + [48];
    assert SumOf(p, Square) == 27844;
    SumOfSnoc(p, 99, Square);
    p := p + [99];
    assert SumOf(p, Square) == 37645;
    SumOfSnoc(p, 114, Square);
    p := p + [114];
    assert SumOf(p, Square) == 50641;
    SumOfSnoc(p, 97, Square);
    p := p + [97];
    assert SumOf(p, Square) == 60050;
    SumOfSnoc(p, 99, Square);
    p := p + [99];
    assert SumOf(p, Square) == 69851;
    SumOfSnoc(p, 107, Square);
    p := p + [107];
    assert SumOf(p, Square) == 81300;
    SumOfSnoc(p, 101, Square);
    p := p + [101];
    assert SumOf(p, Square) == 91501;
    SumOfSnoc(p, 114, Square);
    p := p + [114];
    assert SumOf(p, Square) == 104497;
    assert p == e;
  }

  /** The byte values of the literals the known vector involves. */
  lemma IdentifierLiteral()
    ensures Ascii("pr0cracker") == [112, 114, 48, 99, 114, 97, 99, 107, 101, 114]
  {
  }

  lemma SerialLiteral()
    ensures Ascii("1f68-190d9") == [49, 102, 54, 56, 45, 49, 57, 48, 100, 57]
  {
  }

  lemma VariantLiterals()
    ensures Ascii("1F68-190D9") == [49, 70, 54, 56, 45, 49, 57, 48, 68, 57]
    ensures Ascii("f68-190d9") == [102, 54, 56, 45, 49, 57, 48, 100, 57]
  {
  }

  lemma ZeroVariantLiterals()
    ensures Ascii("01f68-190d9") == [48, 49, 102, 54, 56, 45, 49, 57, 48, 100, 57]
    ensures Ascii("1f68-0190d9") == [49, 102, 54, 56, 45, 48, 49, 57, 48, 100, 57]
  {
  }

  /** The accumulators of a ten-byte identifier with the byte sums of
      "pr0cracker". */
  lemma PrCrackerHashes(e: seq<byte>)
    requires |e| == 10 && SumOf(e, CharValue) == 1005 && SumOf(e, Square) == 104497
    ensures HashA(e) == 0x1f68 && HashB(e) == 0x190d9
  {
    HashAClosedForm(e);
    assert 8 * SumOf(e, CharValue) == 0x1f68 < TWO32;
    assert HashA(e) as int == 0x1f68 % TWO32 == 0x1f68;
    HashBClosedForm(e);
    assert SumOf(e, Square) - 0xbc * |e| == 0x190d9 < TWO32;
    assert HashB(e) as int == 0x190d9 % TWO32 == 0x190d9;
  }

  lemma KnownVectorFirstField(x: u32)
    requires x == 0x1f68
    ensures Hex04(x) == [49, 102, 54, 56]
  {
    var h := Hex(x as nat);
    assert h == [49, 102, 54, 56] by {
      assert Hex(1) == [49];
      assert Hex(31) == [49, 102];
      assert Hex(502) == [49, 102, 54];
    }
  }

  /** Five digits: `%04x` sets a minimum width, not a maximum. */
  lemma KnownVectorSecondField(y: u32)
    requires y == 0x190d9
    ensures Hex04(y) == [49, 57, 48, 100, 57]
  {
    var h := Hex(y as nat);
    assert h == [49, 57, 48, 100, 57] by {
      assert Hex(1) == [49];
      assert Hex(25) == [49, 57];
      assert Hex(400) == [49, 57, 48];
      assert Hex(6413) == [49, 57, 48, 100];
    }
  }

  lemma KnownVectorFormat(x: u32, y: u32)
    requires x == 0x1f68 && y == 0x190d9
    ensures FormatSerial(x, y) == Ascii("1f68-190d9")
  {
    KnownVectorFirstField(x);
    KnownVectorSecondField(y);
    SerialLiteral();
    var s := FormatSerial(x, y);
    assert s == [49, 102, 54, 56] + [DASH] + [49, 57, 48, 100, 57];
    assert s == [49, 102, 54, 56, 45, 49, 57, 48, 100, 57];
  }

  /** The generator's known vector: "pr0cracker" derives "1f68-190d9";
      the second field needs five digits and `%04x` keeps all of them. */
  lemma KnownVector(e: seq<byte>)
    requires e == Ascii("pr0cracker")
    ensures HashA(e) == 0x1f68 && HashB(e) == 0x190d9
    ensures Derive(e) == Ascii("1f68-190d9")
  {
    IdentifierLiteral();
    PrCrackerSum(e);
    PrCrackerSquares(e);
    PrCrackerHashes(e);
    KnownVectorFormat(HashA(e), HashB(e));
  }

  /** The known vector's serial with uppercase digits, or without the
      padding zero, is rejected. */
  lemma KnownVectorRejectsVariants(e: seq<byte>)
    requires e == Ascii("pr0cracker")
    ensures !Validate(e, Ascii("1F68-190D9"))
    ensures !Validate(e, Ascii("f68-190d9"))
  {
    var upper, short := Ascii("1F68-190D9"), Ascii("f68-190d9");
    VariantLiterals();
    ValidateRejectsForeignByte(e, upper, 1);
    assert short[3] == DASH;
    ValidateRejectsUnpadded(e, short);
  }

  /** The known vector's serial with one zero too many in front of either
      field is rejected. */
  lemma KnownVectorRejectsExtraZeros(e: seq<byte>)
    requires e == Ascii("pr0cracker")
    ensures !Validate(e, Ascii("01f68-190d9"))
    ensures !Validate(e, Ascii("1f68-0190d9"))
  {
    var first, second := Ascii("01f68-190d9"), Ascii("1f68-0190d9");
    ZeroVariantLiterals();
    ExtraZeroDashes(first, second);
    ValidateRejectsExtraZeroFirst(e, first);
    ValidateRejectsExtraZeroSecond(e, second);
  }

  lemma ExtraZeroDashes(first: seq<byte>, second: seq<byte>)
    requires first == [48, 49, 102, 54, 56, 45, 49, 57, 48, 100, 57]
    requires second == [49, 102, 54, 56, 45, 48, 49, 57, 48, 100, 57]
    ensures FindDash(first) == 5 && FindDash(second) == 4
  {
    assert first[5] == DASH && second[4] == DASH;
  }

  /** `sprintf(buf, "%04x-%04x", a, b)`: writes the serial and its
      terminator at the start of `buf` and returns its length; the caller's
      buffer must hold them. */
  method SprintfSerial(buf: array<byte>, a: u32, b: u32) returns (n: nat)
    requires |FormatSerial(a, b)| < buf.Length
    modifies buf
    ensures n == |FormatSerial(a, b)|
    ensures buf[..n + 1] == FormatSerial(a, b) + [NUL]
    ensures buf[n + 1..] == old(buf[n + 1..])
    ensures HasNul(buf[..]) && Contents(buf[..]) == FormatSerial(a, b)
  {
    FormatSerialShape(a, b);
    n := WriteString(buf, FormatSerial(a, b));
  }
}
