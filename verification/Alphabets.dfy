/** The character tables of the codecs and of the MAC addresses, character by character. */
module Alphabets {
  import opened Basics
  import opened Bytes
  import opened Clients
  import opened MacLists
  import Base64

  const UPPER := "ABCDEFGHIJKLMNOPQRSTUVWXYZ"
  const LOWER := "abcdefghijklmnopqrstuvwxyz"
  const DIGITS := "0123456789"
  const HEX := "0123456789abcdefABCDEF"

  lemma UpperExact(c: char)
    ensures c in UPPER <==> 'A' <= c <= 'Z'
  {
  }

  lemma LowerExact(c: char)
    ensures c in LOWER <==> 'a' <= c <= 'z'
  {
  }

  lemma UpperAt(n: nat)
    requires n < 26
    ensures UPPER[n] as int == 65 + n
  {
  }

  lemma LowerAt(n: nat)
    requires n < 26
    ensures LOWER[n] as int == 97 + n
  {
  }

  lemma DigitAt(n: nat)
    requires n < 10
    ensures DIGITS[n] as int == 48 + n
  {
  }

  // ---- letter case ------------------------------------------------------------------------------

  /** `tolower`: each of the 26 capitals becomes its small letter, everything else stays. */
  lemma CaseExact(c: char)
    ensures forall n :: 0 <= n < 26 && c == UPPER[n] ==> LowerChar(c) == LOWER[n]
    ensures c !in UPPER ==> LowerChar(c) == c
  {
    UpperExact(c);
    forall n | 0 <= n < 26 && c == UPPER[n]
      ensures LowerChar(c) == LOWER[n]
    {
      UpperAt(n);
      LowerAt(n);
    }
  }

  // ---- Base64 -----------------------------------------------------------------------------------

  /** The alphabet of section 4 of RFC 4648. */
  const BASE64 := UPPER + LOWER + DIGITS + "+/"

  lemma Base64At(n: nat)
    requires n < 64
    ensures |BASE64| == 64
    ensures BASE64[n] == if n < 26 then UPPER[n] else if n < 52 then LOWER[n - 26]
                         else if n < 62 then DIGITS[n - 52] else if n == 62 then '+' else '/'
  {
    hide UPPER, LOWER, DIGITS;
    Lengths();
  }

  lemma Lengths()
    ensures |UPPER| == 26 && |LOWER| == 26 && |DIGITS| == 10
  {
  }

  /** The encoder's letters are the alphabet in order. */
  lemma LetterExact(n: nat)
    requires n < 64
    ensures |BASE64| == 64 && Base64.Letter(n) == BASE64[n]
  {
    Base64At(n);
    if n < 26 {
      UpperAt(n);
    } else if n < 52 {
      LowerAt(n - 26);
    } else if n < 62 {
      DigitAt(n - 52);
    }
  }

  /** The decoder reads exactly the alphabet, and padding as zero. */
  lemma ValueExact(c: Byte, n: nat)
    ensures |BASE64| == 64
    ensures Base64.Value(c) == Some(n) <==> (n < 64 && c == BASE64[n]) || (n == 0 && c == '=')
  {
    hide BASE64;
    if n < 64 {
      LetterExact(n);
    } else {
      LetterExact(0);
    }
    OneLetter(c);
  }

  lemma OneLetter(c: Byte)
    ensures var v := Base64.Value(c); v.Some? && c != '=' ==> Base64.Letter(v.value) == c
  {
  }

  // ---- MAC addresses ----------------------------------------------------------------------------

  lemma HexExact(c: char)
    ensures IsHexDigit(c) <==> c in HEX
  {
  }

  /** Five colons, each after two hexadecimal digits in any case, and two more digits. */
  lemma MacExact(s: string)
    ensures MacFormat(s) <==>
            && |s| == 17
            && s[2] == s[5] == s[8] == s[11] == s[14] == ':'
            && (forall i :: 0 <= i < 17 && i !in {2, 5, 8, 11, 14} ==> s[i] in HEX)
  {
    hide HEX;
    forall i | 0 <= i < |s|
      ensures IsHexDigit(s[i]) <==> s[i] in HEX
    {
      HexExact(s[i]);
    }
  }
}
