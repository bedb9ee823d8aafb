/** What uh_b64decode makes of any text, without its shift register. */
module LooseBase64 {
  import opened Basics
  import opened Bytes
  import opened Base64

  /** The letters of a text by their six bits; everything outside the alphabet is left out, padding counts as zero. */
  function Sextets(text: Text): seq<nat> {
    if text == [] then []
    else
      var n := |text| - 1;
      Sextets(text[..n]) + if Value(text[n]).Some? then [Value(text[n]).value] else []
  }

  /** The number the letters form, without bound. */
  function Number(digits: seq<nat>): nat {
    if digits == [] then 0 else 64 * Number(digits[..|digits| - 1]) + digits[|digits| - 1]
  }

  /** Each letter at a position 3, 7, 11, ... adds three bytes: the low 24 bits of the number formed so far. */
  function Groups4(text: Text): Text {
    if text == [] then []
    else
      var n := |text| - 1;
      Groups4(text[..n]) + if n % 4 == 3 && Value(text[n]).Some? then Triple(Number(Sextets(text))) else []
  }

  /** The low bytes do not depend on what a 32-bit register has lost. */
  lemma TripleLow(v: nat)
    ensures Triple(v % TWO_TO_THE_32) == Triple(v)
  {
    var low := v % 0x100_0000;
    ModMod(v, 0x100_0000, 256);
    var a, b, c := low / 0x1_0000, low / 256 % 256, low % 256;
    assert Bits(Char(a), Char(b), Char(c)) == low;
    TripleBits(Char(a), Char(b), Char(c), v);
    TripleBits(Char(a), Char(b), Char(c), v % TWO_TO_THE_32);
  }

  lemma RegisterStep(number: nat, digit: nat)
    ensures ((number % TWO_TO_THE_32) * 64 + digit) % TWO_TO_THE_32 == (64 * number + digit) % TWO_TO_THE_32
  {
    var q, r := number / TWO_TO_THE_32, number % TWO_TO_THE_32;
    DivModParts(number, TWO_TO_THE_32);
    var low := r * 64 + digit;
    DivModParts(low, TWO_TO_THE_32);
    assert 64 * number + digit == (64 * q + low / TWO_TO_THE_32) * TWO_TO_THE_32 + low % TWO_TO_THE_32;
    DivModUnique(64 * number + digit, TWO_TO_THE_32, 64 * q + low / TWO_TO_THE_32, low % TWO_TO_THE_32);
  }

  lemma NextSextet(text: Text, i: nat)
    requires i < |text|
    ensures Sextets(text[..i + 1])
            == Sextets(text[..i]) + if Value(text[i]).Some? then [Value(text[i]).value] else []
    ensures Groups4(text[..i + 1])
            == Groups4(text[..i]) + if i % 4 == 3 && Value(text[i]).Some?
                                    then Triple(Number(Sextets(text[..i + 1]))) else []
  {
    hide Value, Triple, Number;
    assert text[..i + 1][..i] == text[..i];
  }

  lemma NextNumber(digits: seq<nat>, d: nat)
    ensures Number(digits + [d]) == 64 * Number(digits) + d
  {
    assert (digits + [d])[..|digits|] == digits;
  }

  /** From any position on, with the register holding the low 32 bits of the number so far. */
  lemma {:induction false} DecodedFrom(text: Text, i: nat, cout: nat)
    requires i <= |text| && cout == Number(Sextets(text[..i])) % TWO_TO_THE_32
    ensures Groups4(text[..i]) + Decoded(text, i, cout) == Groups4(text)
    decreases |text| - i
  {
    hide Value, Triple, Number, Sextets, Groups4;
    if i == |text| {
      assert text[..i] == text;
    } else {
      NextSextet(text, i);
      if Value(text[i]).None? {
        DecodeSkips(text, i, cout);
        assert Sextets(text[..i]) + [] == Sextets(text[..i]);
        DecodedFrom(text, i + 1, cout);
      } else {
        var d := Value(text[i]).value;
        var next := (cout * 64 + d) % TWO_TO_THE_32;
        DecodeStep(text, i, cout);
        NextNumber(Sextets(text[..i]), d);
        RegisterStep(Number(Sextets(text[..i])), d);
        TripleLow(Number(Sextets(text[..i + 1])));
        DecodedFrom(text, i + 1, next);
      }
    }
  }

  /** So the decoder, on any text whatever: positions are counted in fours, letters or not, and the 32-bit register
      loses nothing that is written. */
  lemma DecodedExact(text: Text)
    ensures Decoded(text, 0, 0) == Groups4(text)
  {
    assert text[..0] == [];
    DecodedFrom(text, 0, 0);
  }
}
