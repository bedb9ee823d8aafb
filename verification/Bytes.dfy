/** Text as C and PHP see it: sequences of eight-bit characters. A C string is its characters before the NUL. */
module Bytes {
  type Byte = c: char | c < '\U{0100}' witness '\0'

  type Text = seq<Byte>

  const NUL: Byte := '\0'

  function Char(n: int): Byte
    requires 0 <= n < 256
  {
    n as char
  }

  function Code(c: Byte): (n: nat)
    ensures n < 256 && Char(n) == c
  {
    c as int
  }

  predicate IsDigit(c: Byte) {
    '0' <= c <= '9'
  }

  /** `isalnum` in the C locale */
  predicate IsAlnum(c: Byte) {
    IsDigit(c) || 'A' <= c <= 'Z' || 'a' <= c <= 'z'
  }

  /** `isxdigit` */
  predicate IsXdigit(c: Byte) {
    IsDigit(c) || 'A' <= c <= 'F' || 'a' <= c <= 'f'
  }

  /** The `hex` macro of uh_urldecode. */
  function HexValue(c: Byte): (n: nat)
    requires IsXdigit(c)
    ensures n < 16
  {
    if c <= '9' then Code(c) - 48 else if c <= 'F' then Code(c) - 55 else Code(c) - 87
  }

  function HexDigit(n: nat): (c: Byte)
    requires n < 16
    ensures IsXdigit(c) && HexValue(c) == n
  {
    if n < 10 then Char(48 + n) else Char(87 + n)
  }

  /** A buffer that held `before` once `out` has been written at its start. */
  function Filled(before: Text, out: Text): (after: Text)
    ensures |out| <= |before| ==> |after| == |before|
  {
    out + before[if |out| <= |before| then |out| else |before|..]
  }

  /** The same once `text` and its NUL have been written. */
  function Terminated(before: Text, text: Text): Text {
    Filled(before, text + [NUL])
  }

  /** A write through the buffer's pointer at `len`. */
  method Put(buf: array<Byte>, len: int, c: Byte, ghost before: Text, ghost out: Text)
    requires 0 <= len == |out| < buf.Length == |before| && buf[..] == Filled(before, out)
    modifies buf
    ensures buf[..] == Filled(before, out + [c])
  {
    buf[len] := c;
  }

  lemma NothingFilled(before: Text)
    ensures Filled(before, []) == before
  {
  }

  /** The characters before the first NUL. */
  function UpToNul(s: Text): (r: Text)
    ensures r <= s && NUL !in r
    ensures |r| < |s| ==> s[|r|] == NUL
  {
    if s == [] || s[0] == NUL then [] else [s[0]] + UpToNul(s[1..])
  }

  lemma {:induction false} UpToNulOf(t: Text, rest: Text)
    requires NUL !in t
    ensures UpToNul(t + [NUL] + rest) == t
  {
    var s := t + [NUL] + rest;
    if t != [] {
      assert s[1..] == t[1..] + [NUL] + rest;
      UpToNulOf(t[1..], rest);
    }
  }
}
