/** The gateway's side of the query: construct_querystring for fas_secure_enabled 1 or 4, in its buffers. */
module FasGateway {
  import opened Bytes
  import opened FasQuery
  import opened Portal
  import B64 = Base64
  import Url = UrlCode

  method Strlen(buf: array<Byte>) returns (n: nat)
    requires NUL in buf[..]
    ensures n < buf.Length && buf[..n] == UpToNul(buf[..])
  {
    n := 0;
    while buf[n] != NUL
      invariant n < buf.Length && NUL !in buf[..n]
      invariant NUL in buf[n..]
      decreases buf.Length - n
    {
      assert buf[n..] == [buf[n]] + buf[n + 1..];
      n := n + 1;
    }
    assert buf[..] == buf[..n] + [NUL] + buf[n + 1..];
    UpToNulOf(buf[..n], buf[n + 1..]);
  }

  lemma TerminatedText(before: Text, text: Text)
    requires NUL !in text && |text| < |before|
    ensures UpToNul(Terminated(before, text)) == text && NUL in Terminated(before, text)
  {
    var t := Terminated(before, text);
    assert t == text + [NUL] + before[|text| + 1..];
    UpToNulOf(text, before[|text| + 1..]);
    assert t[|text|] == NUL;
  }

  /** `snprintf`: the result is the length the whole text would have had. */
  method Snprintf(buf: array<Byte>, size: nat, text: Text) returns (needed: int)
    requires 0 < size <= buf.Length
    modifies buf
    ensures needed == |text| && buf[..] == Terminated(old(buf[..]), Cut(text, size))
  {
    hide Filled;
    ghost var before := buf[..];
    NothingFilled(before);
    var n := if |text| < size then |text| else size - 1;
    for i := 0 to n
      invariant buf[..] == Filled(before, text[..i])
    {
      Put(buf, i, text[i], before, text[..i]);
      assert text[..i] + [text[i]] == text[..i + 1];
    }
    Put(buf, n, NUL, before, text[..n]);
    return |text|;
  }

  /** `safe_snprintf`: a text that does not fit is an error. */
  method SafeSnprintf(buf: array<Byte>, size: nat, text: Text) returns (n: int)
    requires 0 < size <= buf.Length
    modifies buf
    ensures n == if |text| < size then |text| else -1
    ensures buf[..] == Terminated(old(buf[..]), Cut(text, size))
  {
    var needed := Snprintf(buf, size, text);
    return if needed >= size then -1 else needed;
  }

  predicate CStrings(texts: seq<Text>) {
    forall i :: 0 <= i < |texts| ==> NUL !in texts[i]
  }

  lemma {:induction false} PrintIsCString(items: seq<Text>)
    requires CStrings(items)
    ensures NUL !in Print(items)
  {
    if items != [] {
      PrintIsCString(items[1..]);
    }
  }

  /** The Base64 of the text, which always fits. */
  method EncodeText(text: Text) returns (b64: array<Byte>)
    requires NUL !in text
    ensures fresh(b64) && b64.Length == ENC_QUERYSTR
    ensures NUL in b64[..] && UpToNul(b64[..]) == B64.Encode(Cut(text, QUERYMAXLEN))
  {
    hide B64.Encode, Filled;
    var raw := new Byte[QUERYMAXLEN](_ => NUL);
    ghost var blank := raw[..];
    var needed := Snprintf(raw, QUERYMAXLEN, text);
    ghost var cut := Cut(text, QUERYMAXLEN);
    TerminatedText(blank, cut);
    var n := Strlen(raw);
    b64 := new Byte[ENC_QUERYSTR](_ => NUL);
    ghost var before := b64[..];
    var len := B64.B64Encode(b64, ENC_QUERYSTR, raw[..n]);
    B64.EncodeLength(cut);
    B64.EncodeAlphabet(cut);
    TerminatedText(before, B64.Encode(cut));
  }

  /** The Base64 text percent-encoded, in a buffer of three bytes for each character and one for the NUL: it never
      overflows. */
  method EscapeText(b64: array<Byte>) returns (fasEnc: array<Byte>, encLen: int)
    requires NUL in b64[..]
    ensures fresh(fasEnc) && encLen >= 0
    ensures NUL in fasEnc[..] && UpToNul(fasEnc[..]) == Url.Encode(UpToNul(b64[..]))
  {
    hide Url.Encode, Filled;
    var rawLen := Strlen(b64);
    ghost var blob := UpToNul(b64[..]);
    fasEnc := new Byte[rawLen * 3 + 1](_ => NUL);
    ghost var before := fasEnc[..];
    ghost var done;
    Url.EncodeBound(blob);
    encLen, done := Url.UrlEncode(fasEnc, rawLen * 3 + 1, b64[..rawLen]);
    assert blob[..|blob|] == blob;
    NoNul(blob);
    TerminatedText(before, Url.Encode(blob));
  }

  lemma NoNul(blob: Text)
    ensures NUL !in Url.Encode(blob)
  {
    hide Url.Encode;
    Url.EncodeCharacters(blob);
  }

  /** `construct_querystring`: the buffer ends up holding the query, or the empty string when it does not fit. */
  method ConstructQuery(querystr: array<Byte>, g: Gateway, custom: seq<Text>)
    requires querystr.Length == ENC_QUERYSTR
    requires CStrings(custom) && forall i :: 0 <= i < |ORDER| ==> NUL !in g(ORDER[i])
    modifies querystr
    ensures NUL in querystr[..] && UpToNul(querystr[..]) == Query(Message(g, custom))
  {
    hide B64.Encode, Url.Encode, Filled, Items, Print, UpToNul;
    var text := Message(g, custom);
    MessageIsCString(g, custom);
    var b64 := EncodeText(text);
    var fasEnc, encLen := EscapeText(b64);
    var n := Strlen(fasEnc);
    ghost var before := querystr[..];
    var query := MARKER + fasEnc[..n];
    NoNul(B64.Encode(Cut(text, QUERYMAXLEN)));
    QueryEnds(query);
    var rc := SafeSnprintf(querystr, ENC_QUERYSTR, query);
    if encLen < 0 || rc < 0 {
      querystr[0] := NUL;
      EmptyText(querystr[..]);
    } else {
      TerminatedText(before, query);
    }
  }

  lemma QueryEnds(query: Text)
    requires query != []
    ensures |query| < ENC_QUERYSTR ==> Cut(query, ENC_QUERYSTR) == query
  {
  }

  lemma EmptyText(s: Text)
    requires s != [] && s[0] == NUL
    ensures UpToNul(s) == [] && NUL in s
  {
  }

  lemma MessageIsCString(g: Gateway, custom: seq<Text>)
    requires CStrings(custom) && forall i :: 0 <= i < |ORDER| ==> NUL !in g(ORDER[i])
    ensures NUL !in Message(g, custom)
  {
    hide Spell, Print;
    var items := Items(Fields(g)) + custom;
    forall i | 0 <= i < |items|
      ensures NUL !in items[i]
    {
      if i < |ORDER| {
        SpellPlain(ORDER[i]);
        assert NUL !in g(ORDER[i]);
      } else {
        assert items[i] == custom[i - |ORDER|];
      }
    }
    PrintIsCString(items);
  }
}
