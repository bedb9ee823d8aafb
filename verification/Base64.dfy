/** b64_encode and uh_b64decode of http_microhttpd_utils.c; the alphabet is that of section 4 of RFC 4648. */
module Base64 {
  import opened Basics
  import opened Bytes

  /** The table of the encoder, by its runs. */
  function Letter(n: nat): (c: Byte)
    requires n < 64
    ensures Value(c) == Some(n) && c != NUL
    ensures IsAlnum(c) || c == '+' || c == '/'
  {
    if n < 26 then Char(65 + n) else if n < 52 then Char(71 + n) else if n < 62 then Char(n - 4)
    else if n == 62 then '+' else '/'
  }

  /** The six bits a character stands for in the decoder, where padding stands for zero. */
  function Value(c: Byte): (v: Option<nat>)
    ensures v.Some? ==> v.value < 64
  {
    if '0' <= c <= '9' then Some(Code(c) - 48 + 52)
    else if 'A' <= c <= 'Z' then Some(Code(c) - 65)
    else if 'a' <= c <= 'z' then Some(Code(c) - 97 + 26)
    else if c == '+' then Some(62)
    else if c == '/' then Some(63)
    else if c == '=' then Some(0)
    else None
  }

  /** 24 bits as four letters. */
  function Quad(v: nat): (q: Text)
    requires v < 0x100_0000
    ensures |q| == 4
  {
    [Letter(v / 0x4_0000), Letter(v / 0x1000 % 64), Letter(v / 64 % 64), Letter(v % 64)]
  }

  /** The low 24 bits as three bytes. */
  function Triple(v: nat): (t: Text)
    ensures |t| == 3
  {
    [Char(v / 0x1_0000 % 256), Char(v / 256 % 256), Char(v % 256)]
  }

  function Bits(a: Byte, b: Byte, c: Byte): (v: nat)
    ensures v < 0x100_0000
  {
    (Code(a) * 256 + Code(b)) * 256 + Code(c)
  }

  function First(s: Text): nat {
    if |s| < 3 then |s| else 3
  }

  /** The zero bytes that round a text up to a multiple of three. */
  function Filler(n: nat): Text {
    if n % 3 == 0 then [] else if n % 3 == 1 then [NUL, NUL] else [NUL]
  }

  /** The bits of the first three bytes, with zero bytes for those that are missing. */
  function FirstBits(s: Text): (v: nat)
    requires s != []
    ensures v < 0x100_0000
  {
    Bits(s[0], if |s| > 1 then s[1] else NUL, if |s| > 2 then s[2] else NUL)
  }

  /** The first group: one letter more than there are bytes, then padding. */
  function Group(s: Text): (q: Text)
    requires s != []
    ensures |q| == 4
  {
    var q := Quad(FirstBits(s));
    [q[0], q[1], if |s| > 1 then q[2] else '=', if |s| > 2 then q[3] else '=']
  }

  /** Base64 with padding. */
  function Encode(s: Text): Text
    decreases |s|
  {
    if s == [] then [] else Group(s) + Encode(s[First(s)..])
  }

  function Groups(n: nat): nat {
    (n + 2) / 3
  }

  lemma {:induction false} EncodeLength(s: Text)
    ensures |Encode(s)| == 4 * Groups(|s|)
    decreases |s|
  {
    hide Group, Groups;
    GroupsStep(|s|);
    if s != [] {
      EncodeLength(s[First(s)..]);
    }
  }

  lemma GroupsStep(n: nat)
    ensures Groups(0) == 0
    ensures n > 0 ==> Groups(n) == 1 + Groups(if n < 3 then 0 else n - 3)
  {
  }

  /** What the decoder makes of the characters from position i on; positions, not letters, are counted in
      fours, and a character outside the alphabet is skipped. `cout` is an unsigned int. */
  function Decoded(text: Text, i: nat, cout: nat): Text
    requires i <= |text|
    decreases |text| - i
  {
    if i == |text| then []
    else if Value(text[i]).None? then Decoded(text, i + 1, cout)
    else
      var next := (cout * 64 + Value(text[i]).value) % TWO_TO_THE_32;
      (if i % 4 == 3 then Triple(next) else []) + Decoded(text, i + 1, next)
  }

  lemma TripleBits(a: Byte, b: Byte, c: Byte, v: nat)
    requires v % 0x100_0000 == Bits(a, b, c)
    ensures Triple(v) == [a, b, c]
  {
    var q := v / 0x100_0000;
    DivModUnique(v, 0x1_0000, q * 256 + Code(a), Code(b) * 256 + Code(c));
    DivModUnique(q * 256 + Code(a), 256, q, Code(a));
    DivModUnique(v, 256, (q * 256 + Code(a)) * 256 + Code(b), Code(c));
    DivModUnique((q * 256 + Code(a)) * 256 + Code(b), 256, q * 256 + Code(a), Code(b));
  }

  /** Shifting six bits into a word keeps, below the bits that fall out at the top, what was there. */
  lemma Shifted(cout: nat, below: nat, bits: nat, size: nat, k: nat)
    requires size > 0 && k > 0 && k * (size * 64) == TWO_TO_THE_32
    requires cout % size == below && bits < 64
    ensures ((cout * 64 + bits) % TWO_TO_THE_32) % (size * 64) == below * 64 + bits
  {
    var q := cout / size;
    assert cout == q * size + below;
    assert (q * size) * 64 == q * (size * 64);
    DivModUnique(cout * 64 + bits, size * 64, q, below * 64 + bits);
    ModMod(cout * 64 + bits, size * 64, k);
  }

  /** The 24 bits of four letters. */
  function Joined(b0: nat, b1: nat, b2: nat, b3: nat): nat {
    ((b0 * 64 + b1) * 64 + b2) * 64 + b3
  }

  lemma QuadBits(v: nat)
    requires v < 0x100_0000
    ensures Joined(v / 0x4_0000, v / 0x1000 % 64, v / 64 % 64, v % 64) == v
  {
    NestedDivision(v, 64, 64);
    NestedDivision(v, 0x1000, 64);
    assert v == (v / 64) * 64 + v % 64;
    assert v / 64 == (v / 0x1000) * 64 + v / 64 % 64;
  }

  /** The decoder after one character of the alphabet. */
  function Next(text: Text, i: nat, cout: nat): nat
    requires i < |text| && Value(text[i]).Some?
  {
    (cout * 64 + Value(text[i]).value) % TWO_TO_THE_32
  }

  lemma DecodeStep(text: Text, i: nat, cout: nat)
    requires i < |text| && Value(text[i]).Some?
    ensures Decoded(text, i, cout)
            == (if i % 4 == 3 then Triple(Next(text, i, cout)) else []) + Decoded(text, i + 1, Next(text, i, cout))
  {
  }

  /** Four characters of the alphabet are one group, whatever was left in `cout`. */
  lemma DecodeGroup(text: Text, i: nat, cout: nat, b0: nat, b1: nat, b2: nat, b3: nat) returns (word: nat)
    requires i % 4 == 0 && i + 4 <= |text|
    requires Value(text[i]) == Some(b0) && Value(text[i + 1]) == Some(b1)
    requires Value(text[i + 2]) == Some(b2) && Value(text[i + 3]) == Some(b3)
    ensures word % 0x100_0000 == Joined(b0, b1, b2, b3)
    ensures Decoded(text, i, cout) == Triple(word) + Decoded(text, i + 4, word)
  {
    hide Triple, Value, Decoded, Next, Joined;
    var c1 := Next(text, i, cout);
    var c2 := Next(text, i + 1, c1);
    var c3 := Next(text, i + 2, c2);
    word := Next(text, i + 3, c3);
    DecodeStep(text, i, cout);
    DecodeStep(text, i + 1, c1);
    DecodeStep(text, i + 2, c2);
    DecodeStep(text, i + 3, c3);
    NextLow(text, i, cout, 0, b0, 1, 0x400_0000);
    NextLow(text, i + 1, c1, b0, b1, 64, 0x10_0000);
    NextLow(text, i + 2, c2, b0 * 64 + b1, b2, 0x1000, 0x4000);
    NextLow(text, i + 3, c3, (b0 * 64 + b1) * 64 + b2, b3, 0x4_0000, 0x100);
    JoinedIs(b0, b1, b2, b3);
  }

  lemma JoinedIs(b0: nat, b1: nat, b2: nat, b3: nat)
    ensures Joined(b0, b1, b2, b3) == ((b0 * 64 + b1) * 64 + b2) * 64 + b3
  {
  }

  lemma NextLow(text: Text, i: nat, cout: nat, below: nat, bits: nat, size: nat, k: nat)
    requires i < |text| && Value(text[i]) == Some(bits)
    requires size > 0 && k > 0 && k * (size * 64) == TWO_TO_THE_32 && cout % size == below
    ensures Next(text, i, cout) % (size * 64) == below * 64 + bits
  {
    hide Value;
    Shifted(cout, below, bits, size, k);
  }

  lemma ZeroBits(a: Byte, b: Byte)
    ensures Bits(a, b, NUL) % 64 == 0
    ensures Bits(a, NUL, NUL) % 64 == 0 && Bits(a, NUL, NUL) / 64 % 64 == 0
  {
    DivModUnique(Bits(a, b, NUL), 64, (Code(a) * 256 + Code(b)) * 4, 0);
    DivModUnique(Bits(a, NUL, NUL), 64, Code(a) * 1024, 0);
    DivModUnique(Code(a) * 1024, 64, Code(a) * 16, 0);
  }

  lemma QuadValues(v: nat)
    requires v < 0x100_0000
    ensures var q := Quad(v);
            Value(q[0]) == Some(v / 0x4_0000) && Value(q[1]) == Some(v / 0x1000 % 64)
            && Value(q[2]) == Some(v / 64 % 64) && Value(q[3]) == Some(v % 64)
  {
    hide Value, Letter;
  }

  /** Padding stands for the zero bits of a missing byte. */
  lemma GroupValues(s: Text)
    requires s != []
    ensures var g, v := Group(s), FirstBits(s);
            Value(g[0]) == Some(v / 0x4_0000) && Value(g[1]) == Some(v / 0x1000 % 64)
            && Value(g[2]) == Some(v / 64 % 64) && Value(g[3]) == Some(v % 64)
  {
    hide Quad, Bits;
    QuadValues(FirstBits(s));
    ZeroBits(s[0], if |s| > 1 then s[1] else NUL);
  }

  lemma FillerSplits(s: Text)
    requires s != []
    ensures var p, rest := s + Filler(|s|), s[First(s)..];
            |p| >= 3 && p == [p[0], p[1], p[2]] + (rest + Filler(|rest|))
    ensures var p := s + Filler(|s|); FirstBits(s) == Bits(p[0], p[1], p[2])
  {
    hide Bits;
    var p, rest := s + Filler(|s|), s[First(s)..];
    assert |s| >= 3 ==> |rest| % 3 == |s| % 3;
  }

  lemma FirstGroup(s: Text, text: Text, i: nat)
    requires s != [] && i <= |text| && text[i..] == Encode(s)
    ensures i + 4 <= |text| && text[i + 4..] == Encode(s[First(s)..])
    ensures forall k :: 0 <= k < 4 ==> text[i + k] == Group(s)[k]
  {
    hide Group, First;
    assert forall k :: 0 <= k < 4 ==> text[i + k] == text[i..][k];
    assert text[i + 4..] == text[i..][4..];
  }

  /** Decoding an encoding gives the bytes back, filled up with zero bytes to a multiple of three. */
  lemma {:induction false} DecodeEncoded(s: Text, text: Text, i: nat, cout: nat)
    requires i % 4 == 0 && i <= |text| && text[i..] == Encode(s)
    ensures Decoded(text, i, cout) == s + Filler(|s|)
    decreases |s|
  {
    hide Value, Triple, Joined, Bits, Encode, Decoded, Filler, Group, FirstBits;
    if s == [] {
      DecodeNothing(text, i, cout);
    } else {
      FirstGroup(s, text, i);
      GroupValues(s);
      var p, v := s + Filler(|s|), FirstBits(s);
      assert text[i] == text[i + 0];
      var word := DecodeGroup(text, i, cout, v / 0x4_0000, v / 0x1000 % 64, v / 64 % 64, v % 64);
      QuadBits(v);
      FillerSplits(s);
      TripleBits(p[0], p[1], p[2], word);
      DecodeEncoded(s[First(s)..], text, i + 4, word);
    }
  }

  lemma DecodeNothing(text: Text, i: nat, cout: nat)
    requires i <= |text| && text[i..] == Encode([])
    ensures Decoded(text, i, cout) == [] + Filler(0)
  {
  }

  // ---- the loops ------------------------------------------------------------------------------

  /** The first group of what is left, by the shifts of the loop. */
  lemma GroupOfLoop(s: Text, v: nat)
    requires s != []
    requires var v1 := Code(s[0]);
             var v2 := v1 * 256 + (if |s| > 1 then Code(s[1]) else 0);
             v == v2 * 256 + (if |s| > 2 then Code(s[2]) else 0)
    ensures v == FirstBits(s) < 0x100_0000 && v / 0x4_0000 < 64
    ensures Group(s) == [Letter(v / 0x4_0000 % 64), Letter(v / 0x1000 % 64),
                         if |s| > 1 then Letter(v / 64 % 64) else '=', if |s| > 2 then Letter(v % 64) else '=']
  {
    hide Letter;
    DivModUnique(v / 0x4_0000, 64, 0, v / 0x4_0000);
  }

  /** How many characters of whole groups of `size` fit in a buffer of `blen` bytes with a NUL. */
  function Whole(size: nat, blen: int): nat
    requires size > 0 && blen >= 1
  {
    (blen - 1) / size * size
  }

  lemma WholeIs(size: nat, blen: int, len: nat, k: nat)
    requires size > 0 && len == k * size && len < blen <= len + size
    ensures Whole(size, blen) == len
  {
    DivModUnique(blen - 1, size, k, blen - 1 - len);
  }

  /** What is left at index i, which may have passed the end. */
  function Left(src: Text, i: nat): Text {
    if i <= |src| then src[i..] else []
  }

  lemma LeftAdvances(src: Text, i: nat, out: Text)
    requires i < |src| && out + Encode(Left(src, i)) == Encode(src)
    ensures |out| + 4 <= |Encode(src)| && out == Encode(src)[..|out|]
    ensures out + Group(src[i..]) + Encode(Left(src, i + 3)) == Encode(src)
  {
    hide Group;
    var left := src[i..];
    assert left[First(left)..] == Left(src, i + 3);
    assert Encode(left) == Group(left) + Encode(left[First(left)..]);
  }

  /** One round of the loop: up to three bytes become four characters. */
  method PutGroup(buf: array<Byte>, len: nat, src: Text, i: nat, ghost before: Text, ghost out: Text)
    requires i < |src| && len + 4 < buf.Length
    requires len == |out| && buf.Length == |before| && buf[..] == Filled(before, out)
    modifies buf
    ensures buf[..] == Filled(before, out + Group(src[i..]))
  {
    hide Group, Letter, Filled;
    var slen := |src|;
    var v := Code(src[i]);
    v := if i + 1 < slen then v * 256 + Code(src[i + 1]) else v * 256;
    v := if i + 2 < slen then v * 256 + Code(src[i + 2]) else v * 256;
    GroupOfLoop(src[i..], v);
    var q := [Letter(v / 0x4_0000 % 64), Letter(v / 0x1000 % 64),
              if i + 1 < slen then Letter(v / 64 % 64) else '=', if i + 2 < slen then Letter(v % 64) else '='];
    Put(buf, len, q[0], before, out);
    Put(buf, len + 1, q[1], before, out + [q[0]]);
    Put(buf, len + 2, q[2], before, out + [q[0]] + [q[1]]);
    Put(buf, len + 3, q[3], before, out + [q[0]] + [q[1]] + [q[2]]);
    assert out + [q[0]] + [q[1]] + [q[2]] + [q[3]] == out + q;
  }

  /** What `b64_encode` makes of a buffer. It succeeds exactly when the encoding and its NUL fit; otherwise as
      many whole groups as fit are left in the buffer. */
  ghost predicate Outcome(before: Text, after: Text, blen: int, src: Text, len: int) {
    if blen < 1 then len == -1 && after == before
    else if |Encode(src)| < blen then len == |Encode(src)| && after == Terminated(before, Encode(src))
    else len == -1 && after == Terminated(before, Encode(src)[..Whole(4, blen)])
  }

  lemma Overflow(before: Text, blen: int, src: Text, out: Text, k: nat)
    requires |out| == 4 * k < blen <= |out| + 4 <= |Encode(src)| && out == Encode(src)[..|out|]
    ensures Outcome(before, Terminated(before, out), blen, src, -1)
  {
    WholeIs(4, blen, |out|, k);
  }

  lemma Success(before: Text, blen: int, src: Text)
    requires |Encode(src)| < blen
    ensures Outcome(before, Terminated(before, Encode(src)), blen, src, |Encode(src)|)
  {
  }

  /** `b64_encode` */
  method B64Encode(buf: array?<Byte>, blen: int, src: Text) returns (len: int)
    requires buf != null ==> blen <= buf.Length
    modifies buf
    ensures buf == null ==> len == -1
    ensures buf != null ==> Outcome(old(buf[..]), buf[..], blen, src, len)
  {
    if buf == null || blen < 1 {
      return -1;
    }
    hide Group, Encode, First, Filled, Left, Whole, Outcome;
    ghost var before, out, k := buf[..], [], 0;
    NothingFilled(before);
    StartOf(src);
    var i := 0;
    len := 0;
    while i < |src|
      invariant |out| == len == 4 * k < blen && buf[..] == Filled(before, out)
      invariant out + Encode(Left(src, i)) == Encode(src)
      decreases |src| - i
    {
      LeftAdvances(src, i, out);
      if len + 4 >= blen {
        Put(buf, len, NUL, before, out);
        Overflow(before, blen, src, out, k);
        return -1;
      }
      PutGroup(buf, len, src, i, before, out);
      out := out + Group(src[i..]);
      len := len + 4;
      i := i + 3;
      k := k + 1;
    }
    EndOf(src, i);
    assert out == out + [];
    Put(buf, len, NUL, before, out);
    Success(before, blen, src);
  }

  lemma StartOf(src: Text)
    ensures [] + Encode(Left(src, 0)) == Encode(src)
  {
    assert src[0..] == src;
  }

  lemma EndOf(src: Text, i: nat)
    requires i >= |src|
    ensures Encode(Left(src, i)) == []
  {
  }

  lemma DecodeSkips(text: Text, i: nat, cout: nat)
    requires i < |text| && Value(text[i]).None?
    ensures Decoded(text, i, cout) == Decoded(text, i + 1, cout)
  {
  }

  method PutTriple(buf: array<Byte>, len: nat, cout: nat, ghost before: Text, ghost out: Text)
    requires len + 3 < buf.Length
    requires len == |out| && buf.Length == |before| && buf[..] == Filled(before, out)
    modifies buf
    ensures buf[..] == Filled(before, out + Triple(cout))
  {
    hide Filled;
    var t := Triple(cout);
    Put(buf, len, t[0], before, out);
    Put(buf, len + 1, t[1], before, out + [t[0]]);
    Put(buf, len + 2, t[2], before, out + [t[0]] + [t[1]]);
    assert out + [t[0]] + [t[1]] + [t[2]] == out + t;
  }

  lemma WholeBelow(size: nat, blen: int)
    requires size > 0 && blen >= 1
    ensures Whole(size, blen) < blen
  {
    QuotientBounds(blen - 1, size);
  }

  lemma WholeAtLeast(size: nat, blen: int, len: nat, k: nat)
    requires size > 0 && len == k * size && len < blen
    ensures Whole(size, blen) >= len
  {
    QuotientBounds(blen - 1, size);
    var q := (blen - 1) / size;
    if q < k {
      MulMono(q + 1, k, size);
    } else {
      MulMono(k, q, size);
    }
  }

  /** `uh_b64decode`. The input ends at its first NUL, or one past `slen`; the output is cut at the last group
      that leaves room for the NUL, which the result counts. */
  method B64Decode(buf: array<Byte>, blen: int, src: Text, slen: nat) returns (len: int)
    requires 1 <= blen <= buf.Length && slen < |src|
    modifies buf
    ensures var d := Decoded(UpToNul(src[..slen + 1]), 0, 0);
            var n := Min(|d|, Whole(3, blen));
            len == n + 1 && buf[..] == Terminated(old(buf[..]), d[..n])
  {
    hide Decoded, Filled, Whole, Triple, Value;
    ghost var before, out, k := buf[..], [], 0;
    ghost var text := UpToNul(src[..slen + 1]);
    NothingFilled(before);
    var cout: nat := 0;
    len := 0;
    var i: nat := 0;
    while i <= slen && src[i] != NUL
      invariant i <= |text|
      invariant |out| == len == 3 * k < blen && buf[..] == Filled(before, out)
      invariant out + Decoded(text, i, cout) == Decoded(text, 0, 0)
      decreases |text| - i
    {
      var bits := Value(src[i]);
      if bits.None? {
        DecodeSkips(text, i, cout);
        i := i + 1;
        continue;
      }
      DecodeStep(text, i, cout);
      cout := (cout * 64 + bits.value) % TWO_TO_THE_32;
      if i % 4 != 3 {
        i := i + 1;
        continue;
      }
      if len + 3 >= blen {
        WholeIs(3, blen, len, k);
        break;
      }
      PutTriple(buf, len, cout, before, out);
      out := out + Triple(cout);
      len := len + 3;
      k := k + 1;
      i := i + 1;
    }
    WholeAtLeast(3, blen, len, k);
    if i == |text| {
      DecodeEnd(text, cout);
    }
    Put(buf, len, NUL, before, out);
    len := len + 1;
  }

  lemma DecodeEnd(text: Text, cout: nat)
    ensures Decoded(text, |text|, cout) == []
  {
  }

  // ---- round trip -----------------------------------------------------------------------------

  lemma {:induction false} EncodeAlphabet(s: Text)
    ensures forall c :: c in Encode(s) ==> IsAlnum(c) || c == '+' || c == '/' || c == '='
    decreases |s|
  {
    hide Group;
    if s != [] {
      EncodeAlphabet(s[First(s)..]);
      GroupAlphabet(s);
    }
  }

  lemma GroupAlphabet(s: Text)
    requires s != []
    ensures forall c :: c in Group(s) ==> IsAlnum(c) || c == '+' || c == '/' || c == '='
  {
    hide Letter, FirstBits, IsAlnum;
  }

  /** What `uh_b64decode` reads and computes when it is given the output of `b64_encode` and a buffer with room:
      all the bytes, then zero bytes up to a multiple of three. In a smaller buffer, a prefix of them. */
  lemma RoundTrip(s: Text, after: Text, blen: int)
    requires blen >= 1
    ensures var src := Encode(s) + [NUL] + after;
            var d := Decoded(UpToNul(src[..|Encode(s)| + 1]), 0, 0);
            && d == s + Filler(|s|)
            && |d| == 3 * Groups(|s|)
            && (|d| < blen ==> Min(|d|, Whole(3, blen)) == |d|)
            && (|d| >= blen ==> Min(|d|, Whole(3, blen)) == Whole(3, blen))
  {
    hide Encode, Decoded, Whole;
    var t := Encode(s);
    EncodeAlphabet(s);
    assert (t + [NUL] + after)[..|t| + 1] == t + [NUL] + [];
    UpToNulOf(t, []);
    assert t[0..] == t;
    DecodeEncoded(s, t, 0, 0);
    var n := |s + Filler(|s|)|;
    if n < blen {
      WholeAtLeast(3, blen, n, Groups(|s|));
    } else {
      WholeBelow(3, blen);
    }
  }

  // ---- the strict decoder -----------------------------------------------------------------------

  predicate IsLetter(c: Byte) {
    Value(c).Some? && c != '='
  }

  function Sextet(c: Byte): (v: nat)
    requires Value(c).Some?
    ensures v < 64
  {
    Value(c).value
  }

  /** PHP's base64_decode in strict mode, on text without white space: letters in groups of four, the padding of
      the last group complete or left out, and nothing else. */
  function StrictDecode(t: Text): Option<Text>
    decreases |t|
  {
    if t == [] then Some([])
    else if |t| < 2 || !IsLetter(t[0]) || !IsLetter(t[1]) then None
    else if |t| >= 4 && IsLetter(t[2]) && IsLetter(t[3]) then
      var rest := StrictDecode(t[4..]);
      if rest.None? then None
      else Some(Triple(Joined(Sextet(t[0]), Sextet(t[1]), Sextet(t[2]), Sextet(t[3]))) + rest.value)
    else if 3 <= |t| <= 4 && t[3..] <= ['='] && IsLetter(t[2]) then
      Some(Triple(Joined(Sextet(t[0]), Sextet(t[1]), Sextet(t[2]), 0))[..2])
    else if t[2..] == [] || t[2..] == ['=', '='] then
      Some(Triple(Joined(Sextet(t[0]), Sextet(t[1]), 0, 0))[..1])
    else None
  }

  lemma GroupLetters(s: Text)
    requires s != []
    ensures var g := Group(s);
            IsLetter(g[0]) && IsLetter(g[1])
            && (if |s| > 1 then IsLetter(g[2]) else g[2] == '=') && (if |s| > 2 then IsLetter(g[3]) else g[3] == '=')
    ensures var g := Group(s);
            Triple(Joined(Sextet(g[0]), Sextet(g[1]), Sextet(g[2]), Sextet(g[3])))[..First(s)] == s[..First(s)]
  {
    hide Value, Joined, Triple, Bits;
    var v := FirstBits(s);
    GroupValues(s);
    QuadBits(v);
    TripleBits(s[0], if |s| > 1 then s[1] else NUL, if |s| > 2 then s[2] else NUL, v);
  }

  lemma PaddingIsZero()
    ensures Value('=') == Some(0)
  {
  }

  /** `b64_encode` writes what a strict decoder takes back to the same bytes. */
  lemma {:induction false} StrictRoundTrip(s: Text)
    ensures StrictDecode(Encode(s)) == Some(s)
    decreases |s|
  {
    hide Value, Joined, Triple, Group;
    if s != [] {
      var t := Encode(s);
      var g := Group(s);
      assert t[0] == g[0] && t[1] == g[1] && t[2] == g[2] && t[3] == g[3] && t[4..] == Encode(s[First(s)..]);
      GroupLetters(s);
      PaddingIsZero();
      StrictRoundTrip(s[First(s)..]);
      assert s == s[..First(s)] + s[First(s)..];
      if |s| < 3 {
        assert s == s[..First(s)] && |t| == 4;
      } else {
        var bytes := Triple(Joined(Sextet(g[0]), Sextet(g[1]), Sextet(g[2]), Sextet(g[3])));
        assert bytes == bytes[..3];
      }
    }
  }

  function Padding(n: nat): nat {
    |Filler(n)|
  }

  /** What is left of a single group. */
  lemma CutGroup(s: Text, j: nat)
    requires s != [] && j < 4
    ensures var d := StrictDecode(Group(s)[..j]);
            if j == 0 then d == Some([])
            else if j == 1 || (j == 3 && |s| == 1) then d.None?
            else d.Some? && |d.value| == j - 1 && (|s| == j - 1 ==> d.value == s)
  {
    hide Value, Triple, Joined, Group;
    var g := Group(s);
    GroupLetters(s);
    PaddingIsZero();
    var p := g[..j];
    if j == 2 {
      assert p == [g[0], g[1]] && p[2..] == [];
      assert |s| == 1 ==> s[..1] == s;
    } else if j == 3 {
      assert p == [g[0], g[1], g[2]] && p[2..] == [g[2]] && p[3..] == [];
      assert |s| == 2 ==> s[..2] == s;
    }
  }

  /** Beyond the first group, the rest is cut. */
  lemma CutLater(s: Text, j: nat)
    requires |s| > 3 && 4 <= j < |Encode(s)|
    ensures |Encode(s)| == 4 + |Encode(s[3..])|
    ensures var d := StrictDecode(Encode(s[3..])[..j - 4]);
            StrictDecode(Encode(s)[..j]) == if d.None? then None else Some(s[..3] + d.value)
  {
    hide Value, Triple, Joined, Group;
    var g, p := Group(s), Encode(s)[..j];
    GroupLetters(s);
    assert p[0] == g[0] && p[1] == g[1] && p[2] == g[2] && p[3] == g[3];
    assert p[4..] == Encode(s[3..])[..j - 4];
    var bytes := Triple(Joined(Sextet(g[0]), Sextet(g[1]), Sextet(g[2]), Sextet(g[3])));
    assert bytes == bytes[..3] == s[..3];
  }

  lemma PaddingStep(n: nat)
    requires n > 3
    ensures Padding(n) == Padding(n - 3)
  {
  }

  lemma GroupsAre(n: nat)
    requires n > 0
    ensures n <= 3 ==> Groups(n) == 1 && Padding(n) == 3 - n
    ensures n > 3 ==> Groups(n) >= 2 && Padding(n) <= 2
  {
  }

  lemma CutInFirst(s: Text, j: nat)
    requires s != [] && j < 4 && |Encode(s)| == 4 * Groups(|s|)
    ensures var d := StrictDecode(Encode(s)[..j]);
            && (d == Some(s) <==> j == |Encode(s)| - Padding(|s|))
            && (d.Some? ==> |d.value| <= |s|)
  {
    hide StrictDecode, Group, Groups, Encode;
    CutGroup(s, j);
    GroupsAre(|s|);
    EncodeUnfolds(s);
    assert Encode(s)[..j] == Group(s)[..j];
  }

  /** An encoding that has lost its end decodes to fewer bytes, if at all, unless just the padding is missing. */
  lemma {:induction false} CutEncoding(s: Text, j: nat)
    requires j < |Encode(s)|
    ensures var d := StrictDecode(Encode(s)[..j]);
            && (d == Some(s) <==> j == |Encode(s)| - Padding(|s|))
            && (d.Some? ==> |d.value| <= |s|)
    decreases |s|
  {
    hide Encode, StrictDecode, Group, Padding;
    EncodeLength(s);
    if j < 4 {
      CutInFirst(s, j);
    } else {
      var rest := s[3..];
      CutLater(s, j);
      CutEncoding(rest, j - 4);
      PaddingStep(|s|);
      assert s == s[..3] + rest;
      var d := StrictDecode(Encode(rest)[..j - 4]);
      if d.Some? && s[..3] + d.value == s {
        assert d.value == (s[..3] + d.value)[3..] == rest;
      }
    }
  }

  lemma {:induction false} StrictAlphabet(t: Text)
    requires StrictDecode(t).Some?
    ensures forall c :: c in t ==> Value(c).Some?
    decreases |t|
  {
    hide Value, Triple, Joined;
    PaddingIsZero();
    if |t| >= 4 && IsLetter(t[2]) && IsLetter(t[3]) {
      StrictAlphabet(t[4..]);
      assert t == [t[0], t[1], t[2], t[3]] + t[4..];
    } else if t != [] {
      assert t == [t[0], t[1]] + t[2..];
      assert |t| >= 3 ==> t[2..] == [t[2]] + t[3..];
    }
  }

  lemma EncodeUnfolds(s: Text)
    requires s != []
    ensures Encode(s) == Group(s) + Encode(s[First(s)..])
  {
  }

  lemma EmptyEncoding()
    ensures Encode([]) == []
  {
  }

  lemma GroupPadding(s: Text)
    requires 0 < |s| <= 3
    ensures Padding(|s|) <= 2 && AllPadding(Group(s)[4 - Padding(|s|)..])
  {
    hide Quad;
  }

  predicate AllPadding(p: Text) {
    forall i :: 0 <= i < |p| ==> p[i] == '='
  }

  /** The padding is at the end. */
  lemma {:induction false} EncodePadding(s: Text)
    requires s != []
    ensures Padding(|s|) <= 2 && |Encode(s)| >= 4
    ensures AllPadding(Encode(s)[|Encode(s)| - Padding(|s|)..])
    decreases |s|
  {
    hide Group, Padding, Encode;
    var rest, g := s[First(s)..], Group(s);
    EncodeUnfolds(s);
    if |s| > 3 {
      EncodePadding(rest);
      PaddingStep(|s|);
      assert Encode(s)[|Encode(s)| - Padding(|s|)..] == Encode(rest)[|Encode(rest)| - Padding(|rest|)..];
    } else {
      EmptyEncoding();
      GroupPadding(s);
      assert Encode(s) == g;
    }
  }
}
