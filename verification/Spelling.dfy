/** Percent-encoding by the characters themselves: which texts stand for which bytes. */
module Spelling {
  import opened Alphabets
  import opened Basics
  import opened Bytes
  import opened UrlCode

  const LOWER_HEX: Text := "0123456789abcdef"
  const UPPER_HEX: Text := "0123456789ABCDEF"
  const MARKS := "-_.~"

  /** The characters that section 2.3 of RFC 3986 calls unreserved. */
  predicate Plain(c: Byte) {
    c in UPPER || c in LOWER || c in DIGITS || c in MARKS
  }

  /** The digit in either case. */
  predicate DigitFor(d: Byte, n: nat)
    requires n < 16
  {
    d == LOWER_HEX[n] || d == UPPER_HEX[n]
  }

  /** The text starts with the escape of a byte, in any case of its two digits. */
  predicate Escapes(t: Text, c: Byte) {
    |t| >= 3 && t[0] == '%' && DigitFor(t[1], Code(c) / 16) && DigitFor(t[2], Code(c) % 16)
  }

  /** The text spells the bytes: each stands for itself, unless it is a percent sign, or is escaped. */
  predicate Spells(t: Text, s: Text)
    decreases |s|
  {
    if s == [] then t == []
    else
      || (t != [] && t[0] == s[0] != '%' && Spells(t[1..], s[1..]))
      || (Escapes(t, s[0]) && Spells(t[3..], s[1..]))
  }

  lemma DigitExact(d: Byte, n: nat)
    requires n < 16
    ensures DigitFor(d, n) <==> IsXdigit(d) && HexValue(d) == n
  {
  }

  /** Two hexadecimal digits, in any case, are the escape of exactly one byte. */
  lemma EscapeExact(t: Text, c: Byte)
    ensures Escapes(t, c) <==>
            t != [] && t[0] == '%' && Escape(t) && Char(16 * HexValue(t[1]) + HexValue(t[2])) == c
  {
    hide DigitFor, HexValue, IsXdigit;
    if |t| >= 3 {
      DigitExact(t[1], Code(c) / 16);
      DigitExact(t[2], Code(c) % 16);
    }
  }

  /** The decoder gives a text if and only if its input spells that text and there is room. */
  lemma {:induction false} DecodeExact(t: Text, s: Text, room: int)
    ensures Decode(t, room) == Decoded(s) <==> Spells(t, s) && (s == [] || |s| <= room)
    decreases |t|
  {
    hide Escapes, HexValue, IsXdigit;
    NoEscape([]);
    if t != [] && s != [] {
      EscapeExact(t, s[0]);
      if t[0] != '%' {
        DecodeExact(t[1..], s[1..], room - 1);
        assert !Escapes(t, s[0]);
      } else if Escape(t) {
        DecodeExact(t[3..], s[1..], room - 1);
      }
    }
  }

  /** One round of the decoder: it stops, or reads one or three characters. */
  lemma OneRound(t: Text, room: int) returns (n: nat, c: Byte)
    ensures t == [] ==> Decode(t, room) == Decoded([])
    ensures t != [] && room <= 0 ==> Decode(t, room) == Overflow([])
    ensures t != [] && room > 0 && t[0] == '%' && !Escape(t) ==> Decode(t, room) == Malformed([])
    ensures t != [] && room > 0 && (t[0] == '%' ==> Escape(t)) ==>
              && 1 <= n <= |t| && Decode(t, room) == Decode(t[n..], room - 1).After(c)
              && ((n == 1 && t[0] == c != '%')
                  || (n == 3 && t[0] == '%' && Escape(t[..3]) && c == Char(16 * HexValue(t[1]) + HexValue(t[2]))))
  {
    hide HexValue, IsXdigit;
    n, c := 1, '%';
    if t != [] {
      n := if t[0] == '%' then 3 else 1;
      c := if t[0] != '%' || !Escape(t) then t[0] else Char(16 * HexValue(t[1]) + HexValue(t[2]));
    }
  }

  /** Where the decoder fails it has decoded the text before that place: as much as there is room for, with more to
      come, or less than that, before a percent sign that starts no escape. */
  lemma {:induction false} DecodeFails(t: Text, room: int) returns (at: nat)
    requires !Decode(t, room).Decoded?
    ensures at < |t| && Spells(t[..at], Decode(t, room).text)
    ensures var d := Decode(t, room);
            if d.Overflow? then |d.text| == Max(0, room)
            else |d.text| < room && t[at] == '%' && !StartsEscape(t[at..])
    decreases |t|
  {
    hide HexValue, IsXdigit, DigitFor, StartsEscape, Decode, Escape;
    var n, c := OneRound(t, room);
    if room <= 0 || (t[0] == '%' && !Escape(t)) {
      at := 0;
      XdigitsStart(t);
      assert t[0..] == t;
    } else {
      at := DecodeFails(t[n..], room - 1);
      SpellsOne(t[..n], c, t[n..][..at], Decode(t[n..], room - 1).text);
      assert t[..n] + t[n..][..at] == t[..n + at] && t[n + at..] == t[n..][at..];
      at := n + at;
    }
  }

  lemma XdigitsStart(t: Text)
    ensures StartsEscape(t) <==> t != [] && t[0] == '%' && Escape(t)
  {
    hide LOWER_HEX, UPPER_HEX, IsXdigit;
    if |t| >= 3 {
      XdigitExact(t[1]);
      XdigitExact(t[2]);
    }
  }

  lemma SpellsOne(a: Text, c: Byte, b: Text, s: Text)
    requires Spells(b, s)
    requires (|a| == 1 && a[0] == c != '%')
             || (|a| == 3 && a[0] == '%' && Escape(a) && c == Char(16 * HexValue(a[1]) + HexValue(a[2])))
    ensures Spells(a + b, [c] + s)
  {
    hide HexValue, IsXdigit, DigitFor;
    EscapeExact(a + b, c);
    assert ([c] + s)[1..] == s;
    if |a| == 1 {
      assert (a + b)[1..] == b;
    } else {
      assert (a + b)[3..] == b;
    }
  }

  /** The encoder leaves the plain characters alone and writes every other byte as its escape in lower case. */
  lemma EncodedByte(c: Byte)
    ensures EncodeByte(c)
            == if Plain(c) then [c] else ['%', LOWER_HEX[Code(c) / 16], LOWER_HEX[Code(c) % 16]]
  {
    PlainExact(c);
    LowerDigit(Code(c) / 16);
    LowerDigit(Code(c) % 16);
  }

  lemma LowerDigit(n: nat)
    requires n < 16
    ensures HexDigit(n) == LOWER_HEX[n]
  {
  }

  lemma PlainExact(c: Byte)
    ensures Unreserved(c) <==> Plain(c)
  {
    UpperExact(c);
    LowerExact(c);
  }

  lemma PercentNotPlain()
    ensures !Plain('%')
  {
    PlainExact('%');
  }

  /** An encoding spells its text; so does it with any of its escapes written in the other case. */
  lemma {:induction false} EncodeSpells(s: Text)
    ensures Spells(Encode(s), s)
  {
    hide EncodeByte, DigitFor, Plain;
    if s != [] {
      var rest := Encode(s[1..]);
      EncodeSpells(s[1..]);
      EncodedByte(s[0]);
      var t := EncodeByte(s[0]) + rest;
      if Plain(s[0]) {
        assert t[1..] == rest;
        PercentNotPlain();
      } else {
        LowerIsDigit(Code(s[0]) / 16);
        LowerIsDigit(Code(s[0]) % 16);
        assert t[3..] == rest;
      }
    }
  }

  lemma LowerIsDigit(n: nat)
    requires n < 16
    ensures DigitFor(LOWER_HEX[n], n)
  {
  }

  // ---- rawurldecode -----------------------------------------------------------------------------

  /** For PHP a percent sign that starts no escape stands for itself as well. */
  predicate RawSpells(t: Text, s: Text)
    decreases |s|
  {
    if s == [] then t == []
    else
      || (t != [] && t[0] == s[0] && !StartsEscape(t) && RawSpells(t[1..], s[1..]))
      || (Escapes(t, s[0]) && RawSpells(t[3..], s[1..]))
  }

  predicate StartsEscape(t: Text) {
    |t| >= 3 && t[0] == '%'
    && (t[1] in LOWER_HEX || t[1] in UPPER_HEX) && (t[2] in LOWER_HEX || t[2] in UPPER_HEX)
  }

  lemma XdigitExact(c: Byte)
    ensures IsXdigit(c) <==> c in LOWER_HEX || c in UPPER_HEX
  {
  }

  lemma NoEscape(t: Text)
    requires |t| < 3
    ensures forall c: Byte :: !Escapes(t, c)
  {
  }

  lemma {:induction false} RawDecodeExact(t: Text, s: Text)
    ensures RawDecode(t) == s <==> RawSpells(t, s)
    decreases |t|
  {
    hide Escapes, HexValue, IsXdigit;
    if t == [] {
      NoEscape(t);
    } else {
      if |t| >= 3 {
        XdigitExact(t[1]);
        XdigitExact(t[2]);
      }
      if s != [] {
        EscapeExact(t, s[0]);
        if t[0] == '%' && Escape(t) {
          RawDecodeExact(t[3..], s[1..]);
        } else {
          RawDecodeExact(t[1..], s[1..]);
        }
      }
    }
  }

  /** Both decoders read every spelling: upper and lower case, and escapes of characters that need none. */
  lemma {:induction false} SpellingDecodes(t: Text, s: Text)
    requires Spells(t, s)
    ensures Decode(t, |s|) == Decoded(s) && RawDecode(t) == s
    decreases |t|
  {
    hide Decode, RawDecode;
    DecodeExact(t, s, |s|);
    SpellsRaw(t, s);
    RawDecodeExact(t, s);
  }

  lemma {:induction false} SpellsRaw(t: Text, s: Text)
    requires Spells(t, s)
    ensures RawSpells(t, s)
    decreases |t|
  {
    hide DigitFor;
    if s != [] {
      if t[0] == s[0] != '%' && Spells(t[1..], s[1..]) {
        SpellsRaw(t[1..], s[1..]);
      } else {
        SpellsRaw(t[3..], s[1..]);
      }
    }
  }
}
