/** NUL-terminated byte strings, as the C runtime sees them: `strlen`,
    the contents a `strcmp` compares, and the ASCII encoding of literals. */
module CString {

  /** One `char` of storage, as an unsigned byte value. */
  newtype byte = x: int | 0 <= x < 256

  const NUL: byte := 0

  /** A buffer holds a C string when some byte of it is the terminator. */
  predicate HasNul(s: seq<byte>) {
    exists i :: 0 <= i < |s| && s[i] == NUL
  }

  /** The bytes of a string carry no terminator. */
  predicate NoNul(s: seq<byte>) {
    forall i :: 0 <= i < |s| ==> s[i] != NUL
  }

  lemma NulInTail(s: seq<byte>)
    requires HasNul(s) && s[0] != NUL
    ensures HasNul(s[1..])
  {
    var i :| 0 <= i < |s| && s[i] == NUL;
    assert s[1..][i - 1] == NUL;
  }

  /** `strlen`: the index of the first terminator. */
  function Strlen(s: seq<byte>): (n: nat)
    requires HasNul(s)
    ensures n < |s| && s[n] == NUL
    ensures NoNul(s[..n])
  {
    if s[0] == NUL then 0
    else
      NulInTail(s);
      var n := 1 + Strlen(s[1..]);
      assert s[..n] == [s[0]] + s[1..][..n - 1];
      n
  }

  /** The string a buffer holds: every byte before the first terminator. */
  function Contents(s: seq<byte>): (r: seq<byte>)
    requires HasNul(s)
    ensures NoNul(r) && |r| < |s|
    ensures r + [NUL] == s[..|r| + 1]
  {
    s[..Strlen(s)]
  }

  /** A string followed by its terminator reads back as that string,
      whatever the buffer holds after the terminator. */
  lemma {:induction false} ContentsOfTerminated(str: seq<byte>, rest: seq<byte>)
    requires NoNul(str)
    ensures HasNul(str + [NUL] + rest)
    ensures Contents(str + [NUL] + rest) == str
  {
    var s := str + [NUL] + rest;
    assert s[|str|] == NUL;
    assert s[..|str|] == str;
  }

  /** The bytes of a character literal: each character's code, which for
      the ASCII text this model writes is the byte the C compiler stores. */
  function Ascii(s: string): seq<byte> {
    seq(|s|, i requires 0 <= i < |s| => (s[i] as int % 256) as byte)
  }

  /** Stores `str` and its terminator at the start of `buf`, as the C
      formatting functions do with the text they produce. */
  method WriteString(buf: array<byte>, str: seq<byte>) returns (n: nat)
    requires NoNul(str) && |str| < buf.Length
    modifies buf
    ensures n == |str|
    ensures buf[..n + 1] == str + [NUL]
    ensures buf[n + 1..] == old(buf[n + 1..])
    ensures HasNul(buf[..]) && Contents(buf[..]) == str
  {
    n := |str|;
    forall i | 0 <= i < n {
      buf[i] := str[i];
    }
    buf[n] := NUL;
    assert buf[..n + 1] == str + [NUL];
    assert buf[..] == buf[..n + 1] + buf[n + 1..];
    ContentsOfTerminated(str, buf[n + 1..]);
  }
}
