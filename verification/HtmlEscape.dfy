/** html_attr_escape of http_microhttpd.c: escaping for a single-quoted HTML attribute. */
module HtmlEscape {
  import opened Basics
  import opened Bytes

  /** The entity a character is replaced by, if any. */
  function Entity(c: Byte): Option<Text> {
    if c == '&' then Some("&amp;")
    else if c == '"' then Some("&quot;")
    else if c == '\'' then Some("&#39;")
    else if c == '<' then Some("&lt;")
    else if c == '>' then Some("&gt;")
    else None
  }

  function EscapeChar(c: Byte): (r: Text)
    ensures |r| >= 1
  {
    var e := Entity(c);
    if e.Some? then e.value else [c]
  }

  function Escape(s: Text): Text {
    if s == [] then [] else EscapeChar(s[0]) + Escape(s[1..])
  }

  lemma {:induction false} EscapeConcat(a: Text, b: Text)
    ensures Escape(a + b) == Escape(a) + Escape(b)
  {
    hide EscapeChar;
    if a == [] {
      assert a + b == b;
    } else {
      assert (a + b)[1..] == a[1..] + b;
      EscapeConcat(a[1..], b);
    }
  }

  lemma EscapeNext(s: Text, i: nat)
    requires i < |s|
    ensures Escape(s[..i + 1]) == Escape(s[..i]) + EscapeChar(s[i])
    ensures |Escape(s[..i + 1])| <= |Escape(s)|
  {
    hide EscapeChar;
    assert s[..i + 1] == s[..i] + [s[i]];
    EscapeConcat(s[..i], [s[i]]);
    assert [s[i]][1..] == [];
    assert s == s[..i + 1] + s[i + 1..];
    EscapeConcat(s[..i + 1], s[i + 1..]);
  }

  lemma EscapeEnds(s: Text)
    ensures Escape(s[..0]) == [] && Escape(s[..|s|]) == Escape(s)
  {
    assert s[..|s|] == s;
  }

  predicate Control(c: Byte) {
    c < ' ' || c == '\U{007F}'
  }

  predicate HasControl(s: Text) {
    exists i :: 0 <= i < |s| && Control(s[i])
  }

  lemma EscapedLength(c: Byte)
    ensures |EscapeChar(c)|
            == if c == '&' || c == '\'' then 5 else if c == '"' then 6 else if c == '<' || c == '>' then 4 else 1
  {
  }

  /** The first pass: the length, or a control character. */
  method Measure(src: Text) returns (ok: bool, len: nat)
    ensures ok <==> !HasControl(src)
    ensures ok ==> len == |Escape(src)|
  {
    hide Escape, EscapeChar;
    len := 0;
    EscapeEnds(src);
    for i := 0 to |src|
      invariant !HasControl(src[..i]) && len == |Escape(src[..i])|
    {
      var c := src[i];
      EscapedLength(c);
      if c < ' ' || c == '\U{007F}' {
        assert Control(src[i]);
        return false, 0;
      }
      EscapeNext(src, i);
      if c == '&' {
        len := len + 5;
      } else if c == '"' {
        len := len + 6;
      } else if c == '\'' {
        len := len + 5;
      } else if c == '<' || c == '>' {
        len := len + 4;
      } else {
        len := len + 1;
      }
    }
    assert src[..|src|] == src;
    ok := true;
  }

  /** A whole entity is copied. */
  method Copy(dst: array<Byte>, at: nat, ent: Text, ghost before: Text, ghost out: Text)
    requires at == |out| && |out| + |ent| <= dst.Length == |before| && dst[..] == Filled(before, out)
    modifies dst
    ensures dst[..] == Filled(before, out + ent)
  {
    hide Filled;
    assert out + ent[..0] == out;
    for k := 0 to |ent|
      invariant dst[..] == Filled(before, out + ent[..k])
    {
      Put(dst, at + k, ent[k], before, out + ent[..k]);
      assert out + ent[..k] + [ent[k]] == out + ent[..k + 1];
    }
    assert ent[..|ent|] == ent;
  }

  /** `html_attr_escape`. The second pass fills exactly the buffer the first one measured. */
  method HtmlAttrEscape(src: Option<Text>) returns (dst: array?<Byte>)
    ensures dst == null <==> src.None? || HasControl(src.value)
    ensures dst != null ==> fresh(dst) && dst[..] == Escape(src.value) + [NUL]
  {
    if src.None? {
      return null;
    }
    var s := src.value;
    var ok, len := Measure(s);
    if !ok {
      return null;
    }
    hide Filled, Escape, Entity, HasControl;
    var buf := new Byte[len + 1](_ => NUL);
    ghost var before, out := buf[..], [];
    NothingFilled(before);
    EscapeEnds(s);
    var at := 0;
    for i := 0 to |s|
      invariant at == |out| <= len && out == Escape(s[..i]) && buf[..] == Filled(before, out)
    {
      var ent := Entity(s[i]);
      EscapeNext(s, i);
      if ent.Some? {
        Copy(buf, at, ent.value, before, out);
        at := at + |ent.value|;
      } else {
        Put(buf, at, s[i], before, out);
        at := at + 1;
      }
      out := out + EscapeChar(s[i]);
    }
    Put(buf, at, NUL, before, out);
    WholeFilled(before, out + [NUL]);
    dst := buf;
  }

  lemma WholeFilled(before: Text, out: Text)
    requires |out| == |before|
    ensures Filled(before, out) == out
  {
  }

  // ---- what escaping achieves -------------------------------------------------------------------

  predicate Harmless(c: Byte) {
    c != '"' && c != '\'' && c != '<' && c != '>'
  }

  /** Nothing that could end a quoted attribute, start or end a tag, or split a header is left. */
  lemma {:induction false} NoRawMarkup(s: Text)
    requires !HasControl(s)
    ensures forall c :: c in Escape(s) ==> Harmless(c) && !Control(c)
  {
    if s != [] {
      assert !Control(s[0]);
      assert !HasControl(s[1..]) by {
        forall i | 0 <= i < |s[1..]|
          ensures !Control(s[1..][i])
        {
          assert s[1..][i] == s[i + 1];
        }
      }
      NoRawMarkup(s[1..]);
      EntityHarmless(s[0]);
    }
  }

  lemma EntityHarmless(c: Byte)
    requires !Control(c)
    ensures forall d :: d in EscapeChar(c) ==> Harmless(d) && !Control(d)
  {
  }

  /** The character whose entity the text starts with; the second character tells the entities apart. */
  function EntityAt(t: Text): (c: Option<Byte>)
    ensures c.Some? ==> Entity(c.value).Some? && Entity(c.value).value <= t
  {
    if |t| < 2 || t[0] != '&' then None
    else if t[1] == 'a' && "&amp;" <= t then Some('&')
    else if t[1] == 'q' && "&quot;" <= t then Some('"')
    else if t[1] == '#' && "&#39;" <= t then Some('\'')
    else if t[1] == 'l' && "&lt;" <= t then Some('<')
    else if t[1] == 'g' && "&gt;" <= t then Some('>')
    else None
  }

  /** A reader of HTML: the five entities stand for their characters, everything else for itself. */
  function Unescape(t: Text): Text
    decreases |t|
  {
    if t == [] then []
    else
      var c := EntityAt(t);
      if c.Some? then [c.value] + Unescape(t[|EscapeChar(c.value)|..]) else [t[0]] + Unescape(t[1..])
  }

  lemma EntityAtStart(c: Byte, rest: Text)
    requires Entity(c).Some?
    ensures EntityAt(Entity(c).value + rest) == Some(c)
  {
    var e := Entity(c).value;
    var t := e + rest;
    assert t[..|e|] == e && t[1] == e[1];
  }

  lemma UnescapeChar(c: Byte, rest: Text)
    ensures Unescape(EscapeChar(c) + rest) == [c] + Unescape(rest)
  {
    hide EntityAt, Entity;
    var e := EscapeChar(c);
    var t := e + rest;
    assert t[|e|..] == rest;
    if Entity(c).Some? {
      EntityAtStart(c, rest);
    } else {
      NotAnEntity(c, rest);
    }
  }

  lemma NotAnEntity(c: Byte, rest: Text)
    requires Entity(c).None?
    ensures EntityAt([c] + rest).None?
  {
  }

  /** Unescaping gives the text back, whatever it contains; so different texts never look alike. */
  lemma {:induction false} RoundTrip(s: Text)
    ensures Unescape(Escape(s)) == s
  {
    hide EscapeChar, Unescape;
    if s == [] {
      NothingEscaped();
    } else {
      RoundTrip(s[1..]);
      UnescapeChar(s[0], Escape(s[1..]));
    }
  }

  lemma NothingEscaped()
    ensures Unescape(Escape([])) == []
  {
  }

  /** The five entities by their names; every other character stands for itself. With EscapeConcat this says of any
      text what its escaped form is. */
  lemma EntityTable(c: Byte)
    ensures Escape("&") == "&amp;" && Escape("<") == "&lt;" && Escape(">") == "&gt;"
    ensures Escape("\"") == "&quot;" && Escape("'") == "&#39;"
    ensures c !in "&<>\"'" ==> Escape([c]) == [c]
    ensures Control(c) <==> Code(c) < 32 || Code(c) == 127
  {
    Single(c);
    Single('&');
    Single('<');
    Single('>');
    Single('"');
    Single('\'');
  }

  lemma Single(c: Byte)
    ensures Escape([c]) == EscapeChar(c)
  {
    assert [c][1..] == [];
  }
}
