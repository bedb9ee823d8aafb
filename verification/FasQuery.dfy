/** The query the gateway sends with a client to the portal (construct_querystring, fas_secure_enabled 1 or 4), and
    what fas-hid.php makes of it. */
module FasQuery {
  import opened Basics
  import opened Bytes
  import opened Explode
  import B64 = Base64
  import Url = UrlCode

  const QUERYMAXLEN := 8192
  const ENC_QUERYSTR := 12288
  const SEPARATOR: Text := ", "
  const MARKER: Text := "?fas="

  // ---- the text of the query --------------------------------------------------------------------

  datatype Field = Field(name: Text, value: Text)

  function Item(f: Field): Text {
    f.name + ['='] + f.value
  }

  function Items(fields: seq<Field>): (r: seq<Text>)
    ensures |r| == |fields|
    ensures forall i :: 0 <= i < |fields| ==> r[i] == Item(fields[i])
  {
    seq(|fields|, i requires 0 <= i < |fields| => Item(fields[i]))
  }

  /** Every item is followed by the separator. */
  function Print(items: seq<Text>): Text {
    if items == [] then [] else items[0] + SEPARATOR + Print(items[1..])
  }

  /** `snprintf` into `size` bytes cuts the text to leave room for the NUL. */
  function Cut(text: Text, size: nat): Text
    requires size > 0
  {
    text[..Min(|text|, size - 1)]
  }

  /** The query string for a text: its Base64, percent-encoded, after "?fas="; empty when that does not fit. */
  function Query(text: Text): Text {
    var query := MARKER + Url.Encode(B64.Encode(Cut(text, QUERYMAXLEN)));
    if |query| < ENC_QUERYSTR then query else []
  }

  // ---- the portal's side ------------------------------------------------------------------------

  /** What follows the first question mark of a URL. */
  function QueryString(url: Text): Text {
    if url == [] then [] else if url[0] == '?' then url[1..] else QueryString(url[1..])
  }

  /** `fas_query_value`: the first part of the query string that starts with "fas=", percent-decoded. */
  function FasValue(parts: seq<Text>): Text {
    if parts == [] then []
    else if MARKER[1..] <= parts[0] then Url.RawDecode(parts[0][4..])
    else FasValue(parts[1..])
  }

  /** `str_replace(" ", "+", ...)` */
  function Plus(s: Text): (r: Text)
    ensures |r| == |s|
    ensures ' ' !in s ==> r == s
  {
    seq(|s|, i requires 0 <= i < |s| => if s[i] == ' ' then '+' else s[i])
  }

  /** The decoded text; a value that is not strict Base64 counts as empty. */
  function PortalText(queryString: Text): Text {
    var decoded := B64.StrictDecode(Plus(FasValue(Split(['&'], queryString))));
    if decoded.None? then [] else decoded.value
  }

  /** One piece as the portal reads it: the parts before and after its first "=", up to its second. */
  datatype Pair = Pair(name: Text, value: Option<Text>)

  function Read(item: Text): Pair {
    var parts := Split(['='], item);
    Pair(parts[0], if |parts| > 1 then Some(parts[1]) else None)
  }

  function ReadAll(items: seq<Text>): (r: seq<Pair>)
    ensures |r| == |items|
    ensures forall i :: 0 <= i < |items| ==> r[i] == Read(items[i])
  {
    seq(|items|, i requires 0 <= i < |items| => Read(items[i]))
  }

  function Pairs(text: Text): seq<Pair> {
    ReadAll(Split(SEPARATOR, text))
  }

  // ---- transport --------------------------------------------------------------------------------

  lemma {:induction false} QueryStringAfter(base: Text, rest: Text)
    requires '?' !in base
    ensures QueryString(base + ['?'] + rest) == rest
    ensures QueryString(base) == []
  {
    var url := base + ['?'] + rest;
    if base == [] {
      assert url[1..] == rest;
    } else {
      assert url[0] == base[0] && url[1..] == base[1..] + ['?'] + rest;
      QueryStringAfter(base[1..], rest);
    }
  }

  /** The query before the size test. */
  function FullQuery(text: Text): Text {
    MARKER + Url.Encode(B64.Encode(text))
  }

  /** The URL of the redirect, cut to its buffer like the rest. */
  function Redirect(fasUrl: Text, query: Text): Text {
    Cut(fasUrl + query, QUERYMAXLEN)
  }

  /** Nothing on the way to the portal is cut, except perhaps the percent-encoded padding of the Base64 text, and
      that as a whole. */
  predicate Arrives(fasUrl: Text, text: Text) {
    && |text| < QUERYMAXLEN
    && (|fasUrl| + |FullQuery(text)| < QUERYMAXLEN || OnlyPaddingCut(fasUrl, text))
  }

  predicate OnlyPaddingCut(fasUrl: Text, text: Text) {
    |text| % 3 != 0 && |fasUrl| + |FullQuery(text)| - 3 * B64.Padding(|text|) == QUERYMAXLEN - 1
  }

  /** The part of the query string the portal finds: "fas=" and as much of the encoding as has arrived. */
  lemma PartDecoded(part: Text, enc: Text)
    requires forall c :: c in enc ==> Url.Unreserved(c) || c == '%'
    requires part <= MARKER[1..] + enc
    ensures PortalText(part)
            == (var d := B64.StrictDecode(Plus(if |part| < 4 then [] else Url.RawDecode(enc[..|part| - 4])));
                if d.None? then [] else d.value)
  {
    hide B64.StrictDecode, Url.RawDecode, Split, Url.Unreserved, Plus, Has;
    HasCharacter(['&'], part) by {
      OnlyMarker(part, enc);
    }
    SplitOnce(['&'], part);
    ValueOfPart(part, enc);
  }

  lemma ValueOfPart(part: Text, enc: Text)
    requires part <= MARKER[1..] + enc
    ensures FasValue([part]) == if |part| < 4 then [] else Url.RawDecode(enc[..|part| - 4])
  {
    hide Url.RawDecode;
    assert |MARKER[1..]| == 4;
    if |part| >= 4 {
      assert part[..4] == MARKER[1..] && part[4..] == enc[..|part| - 4];
    }
    assert [part][1..] == [];
  }

  lemma OnlyMarker(part: Text, enc: Text)
    requires forall c :: c in enc ==> Url.Unreserved(c) || c == '%'
    requires part <= MARKER[1..] + enc
    ensures '&' !in part
  {
    forall i | 0 <= i < |part|
      ensures part[i] != '&'
    {
      assert part[i] == (MARKER[1..] + enc)[i];
      assert i >= 4 ==> part[i] == enc[i - 4] && enc[i - 4] in enc;
    }
  }

  /** Base64, percent-encoding, "?fas=" and the portal's extraction undo each other. */
  lemma WholeArrives(text: Text)
    ensures PortalText(FullQuery(text)[1..]) == text
  {
    hide B64.Encode, B64.StrictDecode, Url.Encode, Url.RawDecode, Url.Unreserved, PortalText;
    var blob := B64.Encode(text);
    var enc := Url.Encode(blob);
    var part := FullQuery(text)[1..];
    assert part == MARKER[1..] + enc;
    Url.EncodeCharacters(blob);
    PartDecoded(part, enc);
    assert enc[..|part| - 4] == enc;
    Url.EncodeWellFormed(blob);
    B64.EncodeAlphabet(text);
    B64.StrictRoundTrip(text);
  }

  /** A part that lacks the end gives the text only when just the padding is missing, and never more bytes. */
  lemma CutArrives(text: Text, part: Text)
    requires text != [] && part <= FullQuery(text)[1..] && |part| < |FullQuery(text)[1..]|
    ensures PortalText(part) == text <==> |part| == |FullQuery(text)[1..]| - 3 * B64.Padding(|text|)
    ensures |PortalText(part)| <= |text|
  {
    hide B64.Encode, B64.StrictDecode, Url.Encode, Url.RawDecode, Url.Unreserved, PortalText, Plus;
    var blob := B64.Encode(text);
    var enc := Url.Encode(blob);
    assert FullQuery(text)[1..] == MARKER[1..] + enc;
    Url.EncodeCharacters(blob);
    PartDecoded(part, enc);
    B64.EncodeLength(text);
    PaddingEncoded(text);
    if |part| >= 4 {
      CutBlob(text, |part| - 4);
    } else {
      StrictEmpty();
    }
  }

  lemma StrictEmpty()
    ensures B64.StrictDecode(Plus([])) == Some([])
  {
  }

  /** Each padding character takes three characters in the query. */
  lemma PaddingEncoded(text: Text)
    requires text != []
    ensures var blob := B64.Encode(text);
            && B64.Padding(|text|) <= 2 < |blob|
            && |Url.Encode(blob[..|blob| - B64.Padding(|text|)])| == |Url.Encode(blob)| - 3 * B64.Padding(|text|)
            && 3 * B64.Padding(|text|) < |Url.Encode(blob)|
  {
    hide B64.Encode, Url.Encode, Url.Unreserved;
    var blob := B64.Encode(text);
    var n := |blob| - B64.Padding(|text|);
    B64.EncodeLength(text);
    B64.EncodePadding(text);
    assert blob == blob[..n] + blob[n..];
    Url.EncodeConcat(blob[..n], blob[n..]);
    PaddingLength(blob[n..]);
    Url.EncodeBound(blob[..n]);
  }

  lemma PaddingLength(p: Text)
    requires |p| <= 2 && B64.AllPadding(p)
    ensures |Url.Encode(p)| == 3 * |p|
  {
    hide HexDigit;
    assert |p| > 1 ==> p[1..][1..] == [] && p[1..][0] == p[1];
  }

  lemma CutBlob(text: Text, k: nat)
    requires text != [] && k < |Url.Encode(B64.Encode(text))|
    ensures var d := B64.StrictDecode(Plus(Url.RawDecode(Url.Encode(B64.Encode(text))[..k])));
            && (d == Some(text) <==> k == |Url.Encode(B64.Encode(text))| - 3 * B64.Padding(|text|))
            && (d.Some? ==> |d.value| <= |text|)
  {
    hide B64.Encode, B64.StrictDecode, Url.Encode, Url.RawDecode, B64.Value;
    var blob := B64.Encode(text);
    var n := |blob| - B64.Padding(|text|);
    PaddingEncoded(text);
    var j := Url.CutEncoding(blob, k);
    var r := Url.RawDecode(Url.Encode(blob)[..k]);
    if '%' in r {
      PercentStays(r);
      if B64.StrictDecode(Plus(r)).Some? {
        B64.StrictAlphabet(Plus(r));
      }
      if k == |Url.Encode(blob)| - 3 * B64.Padding(|text|) {
        PrefixEncoded(blob, n);
        BlobPrefix(blob[..n], text);
      }
    } else {
      Url.EncodeWellFormed(blob[..j]);
      BlobPrefix(blob[..j], text);
      B64.CutEncoding(text, j);
      PrefixLengths(blob, j, n);
    }
  }

  lemma PrefixEncoded(s: Text, n: nat)
    requires n <= |s|
    ensures |Url.Encode(s[..n])| <= |Url.Encode(s)|
    ensures Url.Encode(s)[..|Url.Encode(s[..n])|] == Url.Encode(s[..n])
    ensures Url.RawDecode(Url.Encode(s[..n])) == s[..n]
  {
    assert s == s[..n] + s[n..];
    Url.EncodeConcat(s[..n], s[n..]);
    Url.EncodeWellFormed(s[..n]);
  }

  lemma BlobPrefix(p: Text, text: Text)
    requires p <= B64.Encode(text)
    ensures '%' !in p && ' ' !in p
  {
    B64.EncodeAlphabet(text);
    forall c | c in p
      ensures c in B64.Encode(text)
    {
    }
  }

  /** Prefixes of different lengths have encodings of different lengths. */
  lemma PrefixLengths(s: Text, j: nat, n: nat)
    requires j <= |s| && n <= |s|
    ensures |Url.Encode(s[..j])| == |Url.Encode(s[..n])| <==> j == n
  {
    var lo, hi := Min(j, n), Max(j, n);
    assert s[..hi] == s[..lo] + s[lo..hi];
    Url.EncodeConcat(s[..lo], s[lo..hi]);
    Url.EncodeBound(s[lo..hi]);
  }

  lemma PercentStays(r: Text)
    ensures '%' in r ==> '%' in Plus(r) && B64.Value('%').None?
  {
    if '%' in r {
      var i :| 0 <= i < |r| && r[i] == '%';
      assert Plus(r)[i] == '%';
    }
  }

  /** The portal receives a text exactly when nothing of it is lost on the way: neither in the text, nor in the
      query, nor in the URL of the redirect. */
  lemma TransportExact(fasUrl: Text, text: Text)
    requires '?' !in fasUrl && text != []
    ensures PortalText(QueryString(Redirect(fasUrl, Query(text)))) == text <==> Arrives(fasUrl, text)
  {
    hide PortalText, QueryString, B64.Encode, Url.Encode;
    var raw := Cut(text, QUERYMAXLEN);
    var q := FullQuery(raw);
    assert |text| < QUERYMAXLEN ==> raw == text;
    PaddingEncoded(raw);
    if Query(text) == [] {
      assert fasUrl + [] == fasUrl;
      assert Redirect(fasUrl, []) == Cut(fasUrl, QUERYMAXLEN);
      UrlWithoutQuery(Cut(fasUrl, QUERYMAXLEN));
    } else {
      ReceivedPart(fasUrl, q);
      if |fasUrl| + |q| < QUERYMAXLEN {
        WholeArrives(raw);
      } else if |fasUrl| < QUERYMAXLEN - 1 {
        CutArrives(raw, q[1..][..QUERYMAXLEN - 2 - |fasUrl|]);
      } else {
        PortalEmpty();
      }
    }
  }

  lemma UrlWithoutQuery(url: Text)
    requires '?' !in url
    ensures PortalText(QueryString(url)) == []
  {
    QueryStringAfter(url, []);
    PortalEmpty();
  }

  lemma PortalEmpty()
    ensures PortalText([]) == []
  {
  }

  lemma ReceivedPart(fasUrl: Text, q: Text)
    requires '?' !in fasUrl && q != [] && q[0] == '?'
    ensures QueryString(Redirect(fasUrl, q))
            == if |fasUrl| + |q| < QUERYMAXLEN then q[1..]
               else if |fasUrl| < QUERYMAXLEN - 1 then q[1..][..QUERYMAXLEN - 2 - |fasUrl|]
               else []
  {
    var url := Redirect(fasUrl, q);
    if |fasUrl| + |q| < QUERYMAXLEN {
      assert url == fasUrl + ['?'] + q[1..];
      QueryStringAfter(fasUrl, q[1..]);
    } else if |fasUrl| < QUERYMAXLEN - 1 {
      var part := q[1..][..QUERYMAXLEN - 2 - |fasUrl|];
      assert url == fasUrl + ['?'] + part;
      QueryStringAfter(fasUrl, part);
    } else {
      assert url == fasUrl[..QUERYMAXLEN - 1];
      QueryStringAfter(url, []);
    }
  }

  // ---- parsing ----------------------------------------------------------------------------------

  /** How many pieces the items become. */
  function Pieces(items: seq<Text>): seq<Text> {
    if items == [] then [] else Split(SEPARATOR, items[0]) + Pieces(items[1..])
  }

  lemma SeparatorBorderless()
    ensures Borderless(SEPARATOR) && Borderless(['='])
  {
    assert SEPARATOR[..1] == [','] && SEPARATOR[1..] == [' '];
  }

  lemma {:induction false} PrintedPieces(items: seq<Text>)
    ensures Split(SEPARATOR, Print(items)) == Pieces(items) + [[]]
  {
    hide Split;
    if items == [] {
      SplitOnce(SEPARATOR, []);
    } else {
      SeparatorBorderless();
      PrintedPieces(items[1..]);
      SplitConcat(SEPARATOR, items[0], Print(items[1..]));
    }
  }

  /** No item contains the separator. */
  predicate Separable(items: seq<Text>) {
    forall i :: 0 <= i < |items| ==> !Has(SEPARATOR, items[i])
  }

  lemma {:induction false} PiecesExact(items: seq<Text>)
    ensures |Pieces(items)| >= |items|
    ensures Separable(items) ==> Pieces(items) == items
    ensures !Separable(items) ==> |Pieces(items)| > |items|
  {
    hide Has, Split;
    if items != [] {
      PiecesExact(items[1..]);
      SplitOnce(SEPARATOR, items[0]);
    }
  }

  /** A name the parser cannot mistake. */
  predicate Plain(name: Text) {
    '=' !in name && ',' !in name
  }

  predicate PlainNames(fields: seq<Field>) {
    forall i :: 0 <= i < |fields| ==> Plain(fields[i].name)
  }

  function Expected(fields: seq<Field>): (r: seq<Pair>)
    ensures |r| == |fields|
    ensures forall i :: 0 <= i < |fields| ==> r[i] == Pair(fields[i].name, Some(fields[i].value))
  {
    seq(|fields|, i requires 0 <= i < |fields| => Pair(fields[i].name, Some(fields[i].value)))
  }

  /** The condition on a value: it contains neither the separator nor "=". */
  predicate Safe(value: Text) {
    !Has(SEPARATOR, value) && '=' !in value
  }

  lemma ReadItem(f: Field)
    requires Plain(f.name)
    ensures Read(Item(f)).name == f.name
    ensures Read(Item(f)).value == Some(f.value) <==> '=' !in f.value
  {
    hide Split;
    SeparatorBorderless();
    SplitConcat(['='], f.name, f.value);
    HasCharacter(['='], f.name);
    SplitOnce(['='], f.name);
    FirstPart(f.value);
  }

  lemma {:induction false} FirstPart(s: Text)
    ensures Split(['='], s)[0] == s <==> '=' !in s
    ensures '=' !in Split(['='], s)[0]
    decreases |s|
  {
    if s != [] {
      FirstPart(s[1..]);
      assert s == [s[0]] + s[1..];
    }
  }

  lemma ItemHas(f: Field)
    requires Plain(f.name)
    ensures Has(SEPARATOR, Item(f)) <==> Has(SEPARATOR, f.value)
  {
    HasAfter(SEPARATOR, f.name + ['='], f.value);
  }

  lemma Values(fields: seq<Field>)
    requires PlainNames(fields)
    ensures ReadAll(Items(fields)) == Expected(fields) <==> forall i :: 0 <= i < |fields| ==> '=' !in fields[i].value
  {
    hide Read, Item;
    var got, want := ReadAll(Items(fields)), Expected(fields);
    forall i | 0 <= i < |fields|
      ensures got[i] == want[i] <==> '=' !in fields[i].value
    {
      ReadItem(fields[i]);
    }
    if got == want {
      forall i | 0 <= i < |fields|
        ensures '=' !in fields[i].value
      {
        assert got[i] == want[i];
      }
    }
  }

  /** The portal reads back every name and value, and then one empty piece, exactly when no value contains the
      separator or an equals sign. */
  lemma PairsExact(fields: seq<Field>)
    requires PlainNames(fields)
    ensures Pairs(Print(Items(fields))) == Expected(fields) + [Pair([], None)]
            <==> forall i :: 0 <= i < |fields| ==> Safe(fields[i].value)
  {
    hide Print, Split, Has, Item, Read;
    var items := Items(fields);
    PrintedPieces(items);
    PiecesExact(items);
    forall i | 0 <= i < |fields|
      ensures Has(SEPARATOR, items[i]) <==> Has(SEPARATOR, fields[i].value)
    {
      ItemHas(fields[i]);
    }
    Values(fields);
    ReadNothing();
    if Separable(items) {
      assert ReadAll(items + [[]]) == ReadAll(items) + [Pair([], None)];
      assert (Expected(fields) + [Pair([], None)])[..|fields|] == Expected(fields);
      assert (ReadAll(items) + [Pair([], None)])[..|fields|] == ReadAll(items);
      assert forall i :: 0 <= i < |fields| ==> !Has(SEPARATOR, items[i]);
    } else {
      var i :| 0 <= i < |items| && Has(SEPARATOR, items[i]);
      assert !Safe(fields[i].value);
    }
  }

  lemma ReadNothing()
    ensures Read([]) == Pair([], None)
  {
  }

  /** In numbers: the text must leave room for its NUL in 8192 bytes, and so must the URL, with "?fas=" and the encoding
      behind it; or the encoding is cut right where its padding starts. */
  lemma ArrivesExact(fasUrl: Text, text: Text)
    ensures var enc := Url.Encode(B64.Encode(text));
            Arrives(fasUrl, text)
            <==> |text| <= 8191
                 && (|fasUrl| + 5 + |enc| <= 8191
                     || (|text| % 3 != 0 && |fasUrl| + 5 + |enc| - 3 * (3 - |text| % 3) == 8191))
    ensures |Url.Encode(B64.Encode(text))| <= 12 * ((|text| + 2) / 3)
  {
    hide B64.Encode, Url.Encode;
    Url.EncodeBound(B64.Encode(text));
    B64.EncodeLength(text);
    assert |FullQuery(text)| == 5 + |Url.Encode(B64.Encode(text))|;
  }

  /** `fas_query_value` takes the first part that starts with "fas=", wherever it stands; without one, nothing. */
  lemma {:induction false} FirstFasPart(parts: seq<Text>, k: nat)
    requires k <= |parts| && forall j :: 0 <= j < k ==> !("fas=" <= parts[j])
    requires k < |parts| ==> "fas=" <= parts[k]
    ensures FasValue(parts) == if k < |parts| then Url.RawDecode(parts[k][4..]) else []
  {
    hide Url.RawDecode;
    assert MARKER[1..] == "fas=";
    if k > 0 {
      FirstFasPart(parts[1..], k - 1);
    }
  }

  /** The portal undoes the one change a query parser makes to Base64: plus signs that became spaces. */
  lemma PlusRestores(blob: Text, read: Text)
    requires |read| == |blob| && ' ' !in blob
    requires forall i :: 0 <= i < |blob| ==> read[i] == blob[i] || (blob[i] == '+' && read[i] == ' ')
    ensures Plus(read) == blob
  {
    forall i | 0 <= i < |blob|
      ensures Plus(read)[i] == blob[i]
    {
      assert blob[i] in blob;
    }
  }

  /** A piece is read up to its second equals sign: whatever follows is dropped. */
  lemma ReadExact(name: Text, value: Text, rest: Text)
    requires '=' !in name && '=' !in value
    ensures Read(name) == Pair(name, None)
    ensures Read(name + ['='] + value) == Pair(name, Some(value))
    ensures Read(name + ['='] + value + ['='] + rest) == Pair(name, Some(value))
  {
    hide Split, Has;
    SeparatorBorderless();
    HasCharacter(['='], name);
    HasCharacter(['='], value);
    SplitOnce(['='], name);
    SplitOnce(['='], value);
    SplitConcat(['='], name, value);
    SplitConcat(['='], name + ['='] + value, rest);
  }
}
