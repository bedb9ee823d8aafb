/** uh_urlencode and uh_urldecode of http_microhttpd_utils.c: percent-encoding, sections 2.1 and 2.3 of RFC 3986. */
module UrlCode {
  import opened Bytes

  predicate Unreserved(c: Byte) {
    IsAlnum(c) || c == '-' || c == '_' || c == '.' || c == '~'
  }

  function EncodeByte(c: Byte): (r: Text)
    ensures |r| == (if Unreserved(c) then 1 else 3)
  {
    if Unreserved(c) then [c] else ['%', HexDigit(Code(c) / 16), HexDigit(Code(c) % 16)]
  }

  function Encode(s: Text): Text {
    if s == [] then [] else EncodeByte(s[0]) + Encode(s[1..])
  }

  lemma {:induction false} EncodeConcat(a: Text, b: Text)
    ensures Encode(a + b) == Encode(a) + Encode(b)
  {
    hide EncodeByte;
    if a == [] {
      assert a + b == b;
    } else {
      assert (a + b)[1..] == a[1..] + b;
      EncodeConcat(a[1..], b);
    }
  }

  lemma EncodeExtend(src: Text, i: nat)
    requires i < |src|
    ensures Encode(src[..i + 1]) == Encode(src[..i]) + EncodeByte(src[i])
    ensures |Encode(src[..i + 1])| <= |Encode(src)|
  {
    hide EncodeByte;
    assert src[..i + 1] == src[..i] + [src[i]];
    EncodeConcat(src[..i], [src[i]]);
    assert [src[i]][1..] == [];
    assert src == src[..i + 1] + src[i + 1..];
    EncodeConcat(src[..i + 1], src[i + 1..]);
  }

  lemma EncodeAll(src: Text)
    ensures Encode(src[..0]) == [] && Encode(src[..|src|]) == Encode(src)
  {
    assert src[..|src|] == src;
  }

  /** `uh_urlencode`. It succeeds exactly when the encoding and its NUL fit; otherwise the buffer is left with the
      encoding of the longest prefix of the input that fits. `done` counts the bytes encoded. */
  method UrlEncode(buf: array?<Byte>, blen: int, src: Text) returns (len: int, ghost done: nat)
    requires buf != null ==> blen <= buf.Length
    modifies buf
    ensures buf == null || blen < 1 ==> len == -1 && (buf != null ==> buf[..] == old(buf[..]))
    ensures buf != null && blen >= 1 ==>
              && (len >= 0 <==> |Encode(src)| < blen)
              && done <= |src| && buf[..] == Terminated(old(buf[..]), Encode(src[..done]))
              && (len >= 0 ==> len == |Encode(src)| && done == |src|)
              && (len < 0 ==> len == -1 && done < |src| && |Encode(src[..done])| < blen <= |Encode(src[..done + 1])|)
  {
    done := 0;
    if buf == null || blen < 1 {
      return -1, 0;
    }
    hide Filled, Encode, Unreserved;
    ghost var before, out := buf[..], [];
    NothingFilled(before);
    EncodeAll(src);
    var i := 0;
    len := 0;
    while i < |src|
      invariant 0 <= i <= |src| && done == i
      invariant |out| == len < blen && buf[..] == Filled(before, out) && out == Encode(src[..i])
    {
      var c := src[i];
      EncodeExtend(src, i);
      if Unreserved(c) {
        if len + 1 >= blen {
          Put(buf, len, NUL, before, out);
          return -1, i;
        }
        Put(buf, len, c, before, out);
        len := len + 1;
      } else {
        if len + 3 >= blen {
          Put(buf, len, NUL, before, out);
          return -1, i;
        }
        PutEscape(buf, len, c, before, out);
        len := len + 3;
      }
      out := out + EncodeByte(c);
      i := i + 1;
      done := i;
    }
    Put(buf, len, NUL, before, out);
  }

  method PutEscape(buf: array<Byte>, len: nat, c: Byte, ghost before: Text, ghost out: Text)
    requires len + 3 < buf.Length && !Unreserved(c)
    requires len == |out| && buf.Length == |before| && buf[..] == Filled(before, out)
    modifies buf
    ensures buf[..] == Filled(before, out + EncodeByte(c))
  {
    hide Filled, HexDigit;
    var high, low := HexDigit(Code(c) / 16), HexDigit(Code(c) % 16);
    Put(buf, len, '%', before, out);
    Put(buf, len + 1, high, before, out + ['%']);
    Put(buf, len + 2, low, before, out + ['%'] + [high]);
    assert out + ['%'] + [high] + [low] == out + EncodeByte(c);
  }

  // ---- decoding -------------------------------------------------------------------------------

  /** The text is fully decoded, does not fit, or is malformed; in every case with what was decoded so far. */
  datatype Outcome = Decoded(text: Text) | Overflow(text: Text) | Malformed(text: Text) {
    function After(c: Byte): (r: Outcome)
      ensures r.text == [c] + text && (r.Decoded? <==> Decoded?) && (r.Overflow? <==> Overflow?)
    {
      this.(text := [c] + text)
    }

    function Code(): int {
      if Decoded? then |text| else if Overflow? then -1 else -2
    }
  }

  predicate Escape(s: Text) {
    |s| >= 3 && IsXdigit(s[1]) && IsXdigit(s[2])
  }

  /** The decoder with room for `room` more bytes. Room is tested before the next character is looked at. */
  function Decode(s: Text, room: int): Outcome
    decreases |s|
  {
    if s == [] then Decoded([])
    else if room <= 0 then Overflow([])
    else if s[0] != '%' then Decode(s[1..], room - 1).After(s[0])
    else if !Escape(s) then Malformed([])
    else Decode(s[3..], room - 1).After(Char(16 * HexValue(s[1]) + HexValue(s[2])))
  }

  /** `uh_urldecode` */
  method UrlDecode(buf: array?<Byte>, blen: int, src: Text) returns (len: int)
    requires buf != null ==> blen <= buf.Length
    modifies buf
    ensures buf == null || blen < 1 ==> len == -1 && (buf != null ==> buf[..] == old(buf[..]))
    ensures buf != null && blen >= 1 ==>
              var d := Decode(src, blen - 1); len == d.Code() && buf[..] == Terminated(old(buf[..]), d.text)
  {
    if buf == null || blen < 1 {
      return -1;
    }
    hide Filled, Decode, HexValue, IsXdigit, Continues;
    ghost var before, out := buf[..], [];
    ghost var d := Decode(src, blen - 1);
    NothingFilled(before);
    DecodeStarts(src, blen - 1);
    var i := 0;
    len := 0;
    while i < |src|
      invariant 0 <= i <= |src|
      invariant |out| == len < blen && buf[..] == Filled(before, out)
      invariant Continues(d, out, src, i, blen - 1 - len)
    {
      DecodeGoesOn(d, out, src, i, blen - 1 - len);
      if len + 1 >= blen {
        Put(buf, len, NUL, before, out);
        return -1;
      }
      if src[i] != '%' {
        Put(buf, len, src[i], before, out);
        out := out + [src[i]];
        len := len + 1;
        i := i + 1;
        continue;
      }
      if i + 2 >= |src| || !IsXdigit(src[i + 1]) || !IsXdigit(src[i + 2]) {
        Put(buf, len, NUL, before, out);
        return -2;
      }
      var c := Char(16 * HexValue(src[i + 1]) + HexValue(src[i + 2]));
      Put(buf, len, c, before, out);
      out := out + [c];
      len := len + 1;
      i := i + 3;
    }
    DecodeEnds(d, out, src, blen - 1 - len);
    Put(buf, len, NUL, before, out);
  }

  /** With `out` decoded, what the rest of the input gives completes the outcome. */
  predicate Continues(d: Outcome, out: Text, src: Text, i: nat, room: int)
    requires i <= |src|
  {
    var rest := Decode(src[i..], room);
    d.text == out + rest.text && (d.Decoded? <==> rest.Decoded?) && (d.Overflow? <==> rest.Overflow?)
  }

  lemma DecodeStarts(src: Text, room: int)
    ensures Continues(Decode(src, room), [], src, 0, room)
  {
    assert src[0..] == src;
  }

  lemma DecodeEnds(d: Outcome, out: Text, src: Text, room: int)
    requires Continues(d, out, src, |src|, room)
    ensures d == Decoded(out)
  {
  }

  /** One round of the decoder: what each of its four branches leads to. */
  lemma DecodeGoesOn(d: Outcome, out: Text, src: Text, i: nat, room: int)
    requires i < |src| && Continues(d, out, src, i, room)
    ensures room <= 0 ==> d == Overflow(out)
    ensures room > 0 && src[i] != '%' ==> Continues(d, out + [src[i]], src, i + 1, room - 1)
    ensures room > 0 && src[i] == '%' ==>
              if i + 2 >= |src| || !IsXdigit(src[i + 1]) || !IsXdigit(src[i + 2]) then d == Malformed(out)
              else Continues(d, out + [Char(16 * HexValue(src[i + 1]) + HexValue(src[i + 2]))], src, i + 3, room - 1)
  {
    hide IsXdigit, HexValue;
    var s := src[i..];
    assert s[1..] == src[i + 1..];
    if room > 0 && src[i] == '%' && Escape(s) {
      assert s[3..] == src[i + 3..];
      assert s[1] == src[i + 1] && s[2] == src[i + 2];
    }
  }

  // ---- round trip -----------------------------------------------------------------------------

  lemma EscapeValue(c: Byte)
    ensures Char(16 * HexValue(HexDigit(Code(c) / 16)) + HexValue(HexDigit(Code(c) % 16))) == c
  {
  }

  /** An encoded byte is decoded in one round. */
  lemma EncodedByte(c: Byte, rest: Text, room: int)
    requires room > 0
    ensures Decode(EncodeByte(c) + rest, room) == Decode(rest, room - 1).After(c)
  {
    hide HexDigit, HexValue, IsXdigit;
    var t := EncodeByte(c) + rest;
    if Unreserved(c) {
      assert t[1..] == rest;
    } else {
      assert t[3..] == rest;
      EscapeValue(c);
    }
  }

  /** Decoding an encoding gives every byte string back, given room for it and its NUL; in a smaller buffer it
      overflows after as many bytes as fit. */
  lemma {:induction false} RoundTrip(s: Text, room: int)
    requires room >= 0
    ensures Decode(Encode(s), room) == if |s| <= room then Decoded(s) else Overflow(s[..room])
    decreases |s|
  {
    hide EncodeByte;
    if s != [] && room > 0 {
      RoundTrip(s[1..], room - 1);
      EncodedByte(s[0], Encode(s[1..]), room);
    }
  }

  // ---- the decoder without a buffer -------------------------------------------------------------

  /** PHP's rawurldecode: escapes are replaced, a percent sign that starts none stays. */
  function RawDecode(s: Text): Text
    decreases |s|
  {
    if s == [] then []
    else if s[0] == '%' && Escape(s) then [Char(16 * HexValue(s[1]) + HexValue(s[2]))] + RawDecode(s[3..])
    else [s[0]] + RawDecode(s[1..])
  }

  lemma EscapeAround(a: Text, c: Byte, b: Text)
    requires a != [] && a[0] == '%' && !IsXdigit(c)
    ensures Escape(a + [c] + b) == Escape(a)
    ensures Escape(a) ==> |a| >= 3
  {
    hide IsXdigit;
  }

  lemma Associates<T>(a: seq<T>, b: seq<T>, c: seq<T>, d: seq<T>)
    ensures (a + b) + c + d == a + (b + c + d)
  {
  }

  /** Around a character that no escape contains, both sides are decoded on their own. */
  lemma {:induction false} DecodeAround(a: Text, c: Byte, b: Text)
    requires c != '%' && !IsXdigit(c)
    ensures RawDecode(a + [c] + b) == RawDecode(a) + [c] + RawDecode(b)
    decreases |a|
  {
    hide HexValue, IsXdigit, Escape;
    var t := a + [c] + b;
    if a == [] {
      assert t == [c] + b;
      assert t[1..] == b;
    } else {
      if a[0] == '%' { EscapeAround(a, c, b); }
      var n := if a[0] == '%' && Escape(a) then 3 else 1;
      assert t[n..] == a[n..] + [c] + b;
      DecodeAround(a[n..], c, b);
      var first := RawDecode(a)[..1];
      assert RawDecode(a) == first + RawDecode(a[n..]) && RawDecode(t) == first + RawDecode(t[n..]);
      Associates(first, RawDecode(a[n..]), [c], RawDecode(b));
    }
  }

  /** Every percent sign starts an escape. */
  predicate WellFormed(s: Text)
    decreases |s|
  {
    if s == [] then true
    else if s[0] == '%' then Escape(s) && WellFormed(s[3..])
    else WellFormed(s[1..])
  }

  /** `uh_urldecode` succeeds exactly on well-formed input whose decoding fits, and then agrees with rawurldecode;
      when it fails it leaves a prefix of that decoding. */
  lemma {:induction false} DecodeSucceeds(s: Text, room: int)
    requires room >= 0
    ensures Decode(s, room).Decoded? <==> WellFormed(s) && |RawDecode(s)| <= room
    ensures Decode(s, room).Decoded? ==> Decode(s, room).text == RawDecode(s)
    ensures Decode(s, room).text <= RawDecode(s)
    ensures Decode(s, room).Malformed? ==> !WellFormed(s)
    decreases |s|
  {
    hide HexValue, IsXdigit;
    if s != [] && room > 0 {
      if s[0] != '%' {
        DecodeSucceeds(s[1..], room - 1);
      } else if Escape(s) {
        DecodeSucceeds(s[3..], room - 1);
      }
    }
  }

  lemma EncodeWellFormed(s: Text)
    ensures WellFormed(Encode(s)) && RawDecode(Encode(s)) == s
  {
    RoundTrip(s, |s|);
    DecodeSucceeds(Encode(s), |s|);
  }

  lemma {:induction false} EncodeBound(s: Text)
    ensures |s| <= |Encode(s)| <= 3 * |s|
  {
    if s != [] {
      EncodeBound(s[1..]);
    }
  }

  /** No character of an encoding needs escaping in a query string. */
  lemma {:induction false} EncodeCharacters(s: Text)
    ensures forall c :: c in Encode(s) ==> Unreserved(c) || c == '%'
  {
    if s != [] {
      EncodeCharacters(s[1..]);
    }
  }

  lemma EncodedPlain(c: Byte, rest: Text)
    ensures RawDecode(EncodeByte(c) + rest) == [c] + RawDecode(rest)
  {
    hide HexDigit, HexValue, IsXdigit;
    var t := EncodeByte(c) + rest;
    if Unreserved(c) {
      assert t[1..] == rest;
    } else {
      assert t[3..] == rest;
      EscapeValue(c);
    }
  }

  /** An encoding cut short decodes to fewer bytes, with the start of a broken escape after them, if any. */
  lemma {:induction false} CutEncoding(s: Text, k: nat) returns (j: nat)
    requires k < |Encode(s)|
    ensures j < |s|
    ensures Encode(s)[..k] == Encode(s[..j]) || '%' in RawDecode(Encode(s)[..k])
    decreases |s|
  {
    hide EncodeByte, RawDecode;
    var t := Encode(s);
    var first := EncodeByte(s[0]);
    if k < |first| {
      j := 0;
      assert t[..k] == first[..k];
      BrokenEscape(s[0], k);
    } else {
      assert t[..k] == first + Encode(s[1..])[..k - |first|];
      EncodedPlain(s[0], Encode(s[1..])[..k - |first|]);
      var i := CutEncoding(s[1..], k - |first|);
      j := i + 1;
      assert s[..j][0] == s[0] && s[..j][1..] == s[1..][..i];
    }
  }

  lemma BrokenEscape(c: Byte, k: nat)
    requires k < |EncodeByte(c)|
    ensures k == 0 || '%' in RawDecode(EncodeByte(c)[..k])
  {
    hide HexDigit, HexValue, IsXdigit, Unreserved;
    var t := EncodeByte(c)[..k];
    if k > 0 {
      assert t[0] == '%' && !Escape(t);
      assert RawDecode(t)[0] == '%';
    }
  }
}
