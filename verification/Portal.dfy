/** The query the gateway builds for a client, in its buffers, and the variables the portal script sets from it. */
module Portal {
  import opened Basics
  import opened Bytes
  import opened Explode
  import opened FasQuery
  import Url = UrlCode

  /** The names of the query and of the portal's variables. */
  datatype Name = Hid | ClientIp | ClientMac | ClientType | CpiQuery | GatewayName | GatewayUrl | Version
                | GatewayAddress | GatewayMac | OriginUrl | ClientIf | ThemeSpec | AuthDir | AdminEmail | Location

  function Spell(n: Name): Text {
    match n
    case Hid => "hid"
    case ClientIp => "clientip"
    case ClientMac => "clientmac"
    case ClientType => "client_type"
    case CpiQuery => "cpi_query"
    case GatewayName => "gatewayname"
    case GatewayUrl => "gatewayurl"
    case Version => "version"
    case GatewayAddress => "gatewayaddress"
    case GatewayMac => "gatewaymac"
    case OriginUrl => "originurl"
    case ClientIf => "clientif"
    case ThemeSpec => "themespec"
    case AuthDir => "authdir"
    case AdminEmail => "admin_email"
    case Location => "location"
  }

  /** Length, third and last character tell the names apart. */
  function Signature(s: Text): (int, char, char)
    requires |s| >= 3
  {
    (|s|, s[2], s[|s| - 1])
  }

  function Table(n: Name): (int, char, char) {
    match n
    case Hid => (3, 'd', 'd')
    case ClientIp => (8, 'i', 'p')
    case ClientMac => (9, 'i', 'c')
    case ClientType => (11, 'i', 'e')
    case CpiQuery => (9, 'i', 'y')
    case GatewayName => (11, 't', 'e')
    case GatewayUrl => (10, 't', 'l')
    case Version => (7, 'r', 'n')
    case GatewayAddress => (14, 't', 's')
    case GatewayMac => (10, 't', 'c')
    case OriginUrl => (9, 'i', 'l')
    case ClientIf => (8, 'i', 'f')
    case ThemeSpec => (9, 'e', 'c')
    case AuthDir => (7, 't', 'r')
    case AdminEmail => (11, 'm', 'l')
    case Location => (8, 'c', 'n')
  }

  lemma SpellMarks(n: Name)
    ensures |Spell(n)| >= 3 && Signature(Spell(n)) == Table(n)
  {
  }

  predicate Letters(s: Text) {
    forall i :: 0 <= i < |s| ==> 'a' <= s[i] <= 'z' || s[i] == '_'
  }

  lemma SpellLetters(n: Name)
    ensures Letters(Spell(n))
  {
  }

  lemma SpellPlain(n: Name)
    ensures Plain(Spell(n)) && NUL !in Spell(n)
  {
    hide Spell;
    SpellLetters(n);
  }

  lemma SpellInjective(m: Name, n: Name)
    ensures Spell(m) == Spell(n) ==> m == n
  {
    hide Spell, Signature;
    SpellMarks(m);
    SpellMarks(n);
  }

  // ---- the gateway ------------------------------------------------------------------------------

  /** The names in the order of the query. */
  const ORDER: seq<Name> := [Hid, ClientIp, ClientMac, ClientType, CpiQuery, GatewayName, GatewayUrl, Version,
                             GatewayAddress, GatewayMac, OriginUrl, ClientIf, ThemeSpec]

  /** What the gateway tells the portal about a client. */
  type Gateway = Name -> Text

  function Fields(g: Gateway): (r: seq<Field>)
    ensures |r| == |ORDER|
    ensures forall i :: 0 <= i < |ORDER| ==> r[i] == Field(Spell(ORDER[i]), g(ORDER[i]))
  {
    seq(|ORDER|, i requires 0 <= i < |ORDER| => Field(Spell(ORDER[i]), g(ORDER[i])))
  }

  /** The whole text: the fields of the gateway, then the custom parameters, variables, images and files. */
  function Message(g: Gateway, custom: seq<Text>): Text {
    Print(Items(Fields(g)) + custom)
  }

  // ---- the portal -------------------------------------------------------------------------------

  /** What one pass of the portal's loop does to one variable. The gateway URL is decoded once more; the theme is
      not among the variables. */
  function Assign(n: Name, p: Pair, v: Option<Text>): Option<Text> {
    if n == ThemeSpec || p.name != Spell(n) then v
    else if n == GatewayUrl then Some(Url.RawDecode(if p.value.Some? then p.value.value else []))
    else p.value
  }

  function Initial(n: Name): Option<Text> {
    if n in {GatewayName, ClientIp, GatewayAddress, Hid, GatewayMac, ClientIf} then Some([]) else None
  }

  /** A variable after the loop: later pieces override earlier ones. */
  function After(n: Name, pairs: seq<Pair>): Option<Text> {
    if pairs == [] then Initial(n) else Assign(n, pairs[|pairs| - 1], After(n, pairs[..|pairs| - 1]))
  }

  /** The place of a variable in the loop body of the script; the theme has none. */
  function Turn(n: Name): nat {
    match n
    case ClientIp => 0
    case ClientMac => 1
    case GatewayName => 2
    case GatewayUrl => 3
    case Version => 4
    case Hid => 5
    case ClientType => 6
    case GatewayAddress => 7
    case GatewayMac => 8
    case AuthDir => 9
    case OriginUrl => 10
    case CpiQuery => 11
    case ClientIf => 12
    case AdminEmail => 13
    case Location => 14
    case ThemeSpec => 15
  }

  lemma TurnInjective(m: Name, n: Name)
    ensures Turn(m) == Turn(n) ==> m == n
  {
  }

  class Script {
    var vars: map<Name, Option<Text>>

    ghost predicate Holds(pairs: seq<Pair>)
      reads this
    {
      forall n: Name :: n in vars && vars[n] == After(n, pairs)
    }

    constructor ()
      ensures Holds([])
    {
      vars := map n: Name | true :: Initial(n);
    }

    /** The first k variables have been through their test, the others not yet. */
    ghost predicate Partly(p: Pair, before: map<Name, Option<Text>>, k: nat)
      reads this
    {
      forall n: Name ::
        n in vars && n in before && vars[n] == if Turn(n) < k then Assign(n, p, before[n]) else before[n]
    }

    /** `if ($name == "...") {$...=$value;}` */
    method TakeFor(n: Name, p: Pair, ghost before: map<Name, Option<Text>>)
      requires n != ThemeSpec && Partly(p, before, Turn(n))
      modifies this
      ensures Partly(p, before, Turn(n) + 1)
    {
      hide Spell, Url.RawDecode, Turn;
      if p.name == Spell(n) {
        if n == GatewayUrl {
          vars := vars[n := Some(Url.RawDecode(if p.value.Some? then p.value.value else []))];
        } else {
          vars := vars[n := p.value];
        }
      }
      forall m: Name | Turn(m) == Turn(n)
        ensures m == n
      {
        TurnInjective(m, n);
      }
    }

    method Take(p: Pair)
      requires forall n: Name :: n in vars
      modifies this
      ensures forall n: Name :: n in vars && n in old(vars) && vars[n] == Assign(n, p, old(vars)[n])
    {
      hide Partly, Assign;
      ghost var before := vars;
      NothingTaken(p);
      TakeFor(ClientIp, p, before);
      TakeFor(ClientMac, p, before);
      TakeFor(GatewayName, p, before);
      TakeFor(GatewayUrl, p, before);
      TakeFor(Version, p, before);
      TakeFor(Hid, p, before);
      TakeFor(ClientType, p, before);
      TakeFor(GatewayAddress, p, before);
      TakeFor(GatewayMac, p, before);
      TakeFor(AuthDir, p, before);
      TakeFor(OriginUrl, p, before);
      TakeFor(CpiQuery, p, before);
      TakeFor(ClientIf, p, before);
      TakeFor(AdminEmail, p, before);
      TakeFor(Location, p, before);
      AllTaken(p, before);
    }

    lemma NothingTaken(p: Pair)
      requires forall n: Name :: n in vars
      ensures Partly(p, vars, 0)
    {
    }

    lemma AllTaken(p: Pair, before: map<Name, Option<Text>>)
      requires Partly(p, before, 15)
      ensures forall n: Name :: n in vars && n in before && vars[n] == Assign(n, p, before[n])
    {
      hide Spell;
    }

    /** The decode and the loop of the script. */
    method Parse(queryString: Text)
      requires Holds([])
      modifies this
      ensures Holds(Pairs(PortalText(queryString)))
    {
      hide PortalText, Split, Assign, Read;
      var pieces := Split(SEPARATOR, PortalText(queryString));
      ghost var all := Pairs(PortalText(queryString));
      for k := 0 to |pieces|
        invariant Holds(all[..k])
      {
        assert all[..k + 1][..k] == all[..k];
        Take(Read(pieces[k]));
      }
      assert all[..|pieces|] == all;
    }
  }

  // ---- what the portal ends up with ---------------------------------------------------------------

  /** The last piece with the name decides. */
  lemma {:induction false} LastDecides(n: Name, pairs: seq<Pair>, k: nat)
    requires k < |pairs| && pairs[k].name == Spell(n) && n != ThemeSpec
    requires forall j :: k < j < |pairs| ==> pairs[j].name != Spell(n)
    ensures After(n, pairs) == Assign(n, pairs[k], None)
    decreases |pairs|
  {
    hide Spell, Url.RawDecode;
    if k < |pairs| - 1 {
      LastDecides(n, pairs[..|pairs| - 1], k);
    }
  }

  lemma OrderDistinct(i: nat, j: nat)
    requires i < j < |ORDER|
    ensures ORDER[i] != ORDER[j]
  {
  }

  // ---- pieces ---------------------------------------------------------------------------------

  /** Split cuts at the first separator and goes on behind it. */
  lemma {:induction false} FirstCut(sep: Text, s: Text) returns (a: Text, b: Text)
    requires sep != [] && Has(sep, s)
    ensures s == a + sep + b && Split(sep, s) == [a] + Split(sep, b)
    decreases |s|
  {
    if sep <= s {
      a, b := [], s[|sep|..];
    } else {
      a, b := FirstCut(sep, s[1..]);
      assert s == [s[0]] + s[1..];
      a := [s[0]] + a;
    }
  }

  /** Shorter, and shorter still when both are decoded. */
  predicate Less(piece: Text, s: Text) {
    |piece| < |s| && |Url.RawDecode(piece)| < |Url.RawDecode(s)|
  }

  lemma PartsLess(a: Text, sep: Text, b: Text)
    requires sep == SEPARATOR || sep == ['=']
    ensures Less(a, a + sep + b) && Less(b, a + sep + b)
  {
    hide Url.RawDecode;
    if sep == SEPARATOR {
      assert a + sep + b == a + [','] + ([] + [' '] + b);
      Url.DecodeAround(a, ',', [] + [' '] + b);
      Url.DecodeAround([], ' ', b);
    } else {
      Url.DecodeAround(a, '=', b);
    }
  }

  /** Where a text is cut, each of its pieces is less. */
  lemma {:induction false} PiecesLess(sep: Text, s: Text, j: nat)
    requires (sep == SEPARATOR || sep == ['=']) && Has(sep, s) && j < |Split(sep, s)|
    ensures Less(Split(sep, s)[j], s)
    decreases |s|
  {
    hide Has, Split, Less;
    var a, b := FirstCut(sep, s);
    PartsLess(a, sep, b);
    if j > 0 {
      SplitOnce(sep, b);
      if Has(sep, b) {
        LengthOfCut(a, sep, b);
        PiecesLess(sep, b, j - 1);
        LessTransitive(Split(sep, b)[j - 1], b, s);
      }
    }
  }

  lemma LengthOfCut(a: Text, sep: Text, b: Text)
    requires sep != []
    ensures |b| < |a + sep + b|
  {
  }

  lemma LessTransitive(p: Text, q: Text, r: Text)
    requires Less(p, q) && Less(q, r)
    ensures Less(p, r)
  {
  }

  /** What is read from a text as a value is less than the text. */
  lemma ValueLess(s: Text)
    ensures Read(s).value.Some? ==> Less(Read(s).value.value, s)
  {
    hide Has, Split, Less;
    SplitOnce(['='], s);
    if Has(['='], s) {
      PiecesLess(['='], s, 1);
    }
  }

  /** An item is cut where its value is; its name goes to the first piece. */
  lemma ItemCut(f: Field)
    requires Plain(f.name)
    ensures var own, cut := Split(SEPARATOR, Item(f)), Split(SEPARATOR, f.value);
            own == [f.name + ['='] + cut[0]] + cut[1..]
  {
    hide Has;
    CutAfterName(f.name + ['='], f.value);
  }

  lemma OneMore(t: Text)
    requires t != [] && t[0] != ','
    ensures var rest := Split(SEPARATOR, t[1..]); Split(SEPARATOR, t) == [[t[0]] + rest[0]] + rest[1..]
  {
    assert SEPARATOR[0] == ',';
  }

  lemma {:induction false} CutAfterName(a: Text, b: Text)
    requires ',' !in a
    ensures var whole, cut := Split(SEPARATOR, a + b), Split(SEPARATOR, b);
            whole == [a + cut[0]] + cut[1..]
    decreases |a|
  {
    hide Split;
    var cut := Split(SEPARATOR, b);
    if a == [] {
      assert a + b == b && a + cut[0] == cut[0];
    } else {
      var t := a + b;
      assert t[1..] == a[1..] + b && t[0] == a[0];
      CutAfterName(a[1..], b);
      OneMore(t);
      assert [a[0]] + (a[1..] + cut[0]) == a + cut[0];
    }
  }

  lemma {:induction false} PiecesConcat(a: seq<Text>, b: seq<Text>)
    ensures Pieces(a + b) == Pieces(a) + Pieces(b)
  {
    hide Split;
    if a == [] {
      assert a + b == b;
    } else {
      assert (a + b)[1..] == a[1..] + b;
      PiecesConcat(a[1..], b);
    }
  }

  // ---- one variable ---------------------------------------------------------------------------

  /** No piece of these items has the name. */
  predicate NotTaken(n: Name, items: seq<Text>) {
    forall j :: 0 <= j < |Pieces(items)| ==> Read(Pieces(items)[j]).name != Spell(n)
  }

  /** The items behind the one at k. */
  function Later(g: Gateway, custom: seq<Text>, k: nat): seq<Text>
    requires k < |ORDER|
  {
    (Items(Fields(g)) + custom)[k + 1..]
  }

  /** What a variable is to be, from the value sent for it. */
  function Wanted(n: Name, v: Text): Text {
    if n == GatewayUrl then Url.RawDecode(v) else v
  }

  function Meant(g: Gateway, n: Name): Text {
    Wanted(n, g(n))
  }

  /** A piece of an item whose value is cut does not carry the value. */
  lemma CutLosesValue(n: Name, v: Text, j: nat)
    requires Has(SEPARATOR, v) && n != ThemeSpec
    requires var own := Split(SEPARATOR, Item(Field(Spell(n), v)));
             j < |own| && Read(own[j]).name == Spell(n)
    ensures var own := Split(SEPARATOR, Item(Field(Spell(n), v)));
            Assign(n, Read(own[j]), None) != Some(Wanted(n, v))
  {
    hide Has, Split, Spell, Url.RawDecode, Item, Read;
    var f := Field(Spell(n), v);
    var own, cut := Split(SEPARATOR, Item(f)), Split(SEPARATOR, v);
    SpellPlain(n);
    ItemCut(f);
    PiecesLess(SEPARATOR, v, j);
    if j == 0 {
      FirstPieceValue(f.name, cut[0]);
    } else {
      ValueLess(cut[j]);
      if Read(cut[j]).value.Some? {
        LessTransitive(Read(cut[j]).value.value, cut[j], v);
      } else {
        NothingDecoded();
      }
    }
  }

  lemma NothingDecoded()
    ensures Url.RawDecode([]) == []
  {
  }

  lemma FirstPieceValue(name: Text, x: Text)
    requires Plain(name)
    ensures Read(name + ['='] + x).name == name && Read(name + ['='] + x).value.Some?
    ensures var w := Read(name + ['='] + x).value.value; w == x || Less(w, x)
  {
    hide Split, Has, Less;
    SeparatorBorderless();
    SplitConcat(['='], name, x);
    HasCharacter(['='], name);
    SplitOnce(['='], name);
    SplitOnce(['='], x);
    if Has(['='], x) {
      PiecesLess(['='], x, 0);
    }
  }

  /** A percent-encoded value is always safe: so the original URL, the portal query and the gateway URL are never
      mistaken, and the gateway URL arrives decoded. */
  lemma EncodedIsSafe(raw: Text)
    ensures Safe(Url.Encode(raw)) && Url.RawDecode(Url.Encode(raw)) == raw
  {
    hide Url.Encode, Url.RawDecode, Has;
    Url.EncodeCharacters(raw);
    Url.EncodeWellFormed(raw);
    HasCharacter(SEPARATOR, Url.Encode(raw));
  }

  lemma Around<T>(s: seq<T>, k: nat)
    requires k < |s|
    ensures s == s[..k] + s[k..] && s[k..] != [] && s[k..][0] == s[k] && s[k..][1..] == s[k + 1..]
  {
  }

  lemma Associates<T>(a: seq<T>, b: seq<T>, c: seq<T>)
    ensures a + (b + c) == a + b + c
  {
  }

  lemma PiecesAround(items: seq<Text>, k: nat)
    requires k < |items|
    ensures Pieces(items) == Pieces(items[..k]) + Split(SEPARATOR, items[k]) + Pieces(items[k + 1..])
  {
    hide Split, Pieces;
    Around(items, k);
    PiecesConcat(items[..k], items[k..]);
    FirstItem(items[k..]);
    Associates(Pieces(items[..k]), Split(SEPARATOR, items[k]), Pieces(items[k + 1..]));
  }

  lemma FirstItem(items: seq<Text>)
    requires items != []
    ensures Pieces(items) == Split(SEPARATOR, items[0]) + Pieces(items[1..])
  {
  }

  lemma MessagePieces(items: seq<Text>, k: nat)
    requires k < |items|
    ensures Pairs(Print(items))
            == ReadAll(Pieces(items[..k]) + Split(SEPARATOR, items[k]) + Pieces(items[k + 1..]) + [[]])
  {
    hide Print, Split, Read, Pieces;
    PrintedPieces(items);
    PiecesAround(items, k);
  }

  /** The last of some pieces with a name. */
  lemma {:induction false} LastNamed(pieces: seq<Text>, name: Text) returns (m: nat)
    requires |pieces| > 0 && Read(pieces[0]).name == name
    ensures m < |pieces| && Read(pieces[m]).name == name
    ensures forall j :: m < j < |pieces| ==> Read(pieces[j]).name != name
    decreases |pieces|
  {
    hide Read;
    var last := |pieces| - 1;
    if Read(pieces[last]).name == name {
      m := last;
    } else {
      m := LastNamed(pieces[..last], name);
    }
  }

  /** A variable is read from the last piece with its name among those of its own item, if no later item has one. */
  lemma OwnDecides(items: seq<Text>, k: nat, n: Name, v: Text) returns (m: nat)
    requires k < |items| && items[k] == Item(Field(Spell(n), v))
    requires n != ThemeSpec && NotTaken(n, items[k + 1..])
    ensures var own := Split(SEPARATOR, items[k]);
            && m < |own| && Read(own[m]).name == Spell(n)
            && After(n, Pairs(Print(items))) == Assign(n, Read(own[m]), None)
  {
    hide Spell, Split, Read, Item, Assign, Pieces, Print;
    var before, own, after := Pieces(items[..k]), Split(SEPARATOR, items[k]), Pieces(items[k + 1..]);
    SpellPlain(n);
    SpellMarks(n);
    ItemCut(Field(Spell(n), v));
    FirstPieceValue(Spell(n), Split(SEPARATOR, v)[0]);
    m := LastNamed(own, Spell(n));
    MessagePieces(items, k);
    ReadNothing();
    var all := before + own + after + [[]];
    var at := |before| + m;
    assert all[at] == own[m];
    forall j | at < j < |all|
      ensures ReadAll(all)[j].name != Spell(n)
    {
      if j < |before| + |own| {
        assert all[j] == own[j - |before|];
      } else if j < |all| - 1 {
        assert all[j] == after[j - |before| - |own|];
      }
    }
    LastDecides(n, ReadAll(all), at);
  }

  /** Whatever the other items contain: an item sets its variable to its value if and only if the value contains neither
      the separator nor an equals sign, as long as no later piece has its name. */
  lemma ItemExact(items: seq<Text>, k: nat, n: Name, v: Text)
    requires k < |items| && items[k] == Item(Field(Spell(n), v))
    requires n != ThemeSpec && NotTaken(n, items[k + 1..])
    ensures After(n, Pairs(Print(items))) == Some(Wanted(n, v)) <==> Safe(v)
  {
    hide Spell, Split, Read, Item, Has, Print, After, NotTaken, Less, Url.RawDecode;
    var m := OwnDecides(items, k, n, v);
    SpellPlain(n);
    SplitOnce(SEPARATOR, items[k]);
    ItemHas(Field(Spell(n), v));
    if Has(SEPARATOR, v) {
      CutLosesValue(n, v, m);
    } else {
      WholeValue(n, v);
    }
  }

  /** The fields of the gateway. */
  lemma VariableExact(g: Gateway, custom: seq<Text>, k: nat)
    requires k < |ORDER| && ORDER[k] != ThemeSpec && NotTaken(ORDER[k], Later(g, custom, k))
    ensures After(ORDER[k], Pairs(Message(g, custom))) == Some(Meant(g, ORDER[k])) <==> Safe(g(ORDER[k]))
  {
    hide Spell, Print, After, NotTaken, Item, Safe;
    ItemExact(Items(Fields(g)) + custom, k, ORDER[k], g(ORDER[k]));
  }

  /** The custom parameters, variables, images and files: any of the portal's variables, so also those that are none of
      the gateway's fields. */
  lemma CustomExact(g: Gateway, custom: seq<Text>, j: nat, n: Name, v: Text)
    requires j < |custom| && custom[j] == Item(Field(Spell(n), v))
    requires n != ThemeSpec && NotTaken(n, custom[j + 1..])
    ensures After(n, Pairs(Message(g, custom))) == Some(Wanted(n, v)) <==> Safe(v)
  {
    hide Spell, Print, After, NotTaken, Item, Safe;
    var items := Items(Fields(g)) + custom;
    assert items[|ORDER| + j + 1..] == custom[j + 1..];
    ItemExact(items, |ORDER| + j, n, v);
  }

  /** A variable that no piece names keeps what the script starts with: six are empty, the others are not set. */
  lemma {:induction false} NeverNamed(n: Name, pairs: seq<Pair>)
    requires forall j :: 0 <= j < |pairs| ==> pairs[j].name != Spell(n)
    ensures After(n, pairs)
            == if Spell(n) in ["gatewayname", "clientip", "gatewayaddress", "hid", "gatewaymac", "clientif"]
               then Some([]) else None
    decreases |pairs|
  {
    if pairs != [] {
      NeverNamed(n, pairs[..|pairs| - 1]);
    }
  }

  /** The names, in the order of the gateway's format and in the order of the script's loop. */
  const QUERY_NAMES: seq<string> :=
    ["hid", "clientip", "clientmac", "client_type", "cpi_query", "gatewayname", "gatewayurl", "version",
     "gatewayaddress", "gatewaymac", "originurl", "clientif", "themespec"]

  const PORTAL_NAMES: seq<string> :=
    ["clientip", "clientmac", "gatewayname", "gatewayurl", "version", "hid", "client_type", "gatewayaddress",
     "gatewaymac", "authdir", "originurl", "cpi_query", "clientif", "admin_email", "location"]

  lemma NamesExact(k: nat, n: Name)
    ensures |QUERY_NAMES| == |ORDER| && (k < |ORDER| ==> Spell(ORDER[k]) == QUERY_NAMES[k])
    ensures n != ThemeSpec ==> Turn(n) < |PORTAL_NAMES| && Spell(n) == PORTAL_NAMES[Turn(n)]
  {
  }

  lemma WholeValue(n: Name, v: Text)
    requires n != ThemeSpec
    ensures Assign(n, Read(Item(Field(Spell(n), v))), None) == Some(Wanted(n, v))
            <==> '=' !in v
  {
    hide Spell, Split, Url.RawDecode, Less;
    SpellPlain(n);
    ReadItem(Field(Spell(n), v));
    FirstPieceValue(Spell(n), v);
    LessDiffers(v);
  }

  lemma LessDiffers(v: Text)
    ensures forall w: Text :: Less(w, v) ==> w != v && Url.RawDecode(w) != Url.RawDecode(v)
  {
  }

  /** Nothing takes a name when the later items are free of the separator and no custom item has the name. */
  lemma SeparableNotTaken(g: Gateway, custom: seq<Text>, k: nat)
    requires k < |ORDER| && Separable(Later(g, custom, k))
    requires forall i :: 0 <= i < |custom| ==> Read(custom[i]).name != Spell(ORDER[k])
    ensures NotTaken(ORDER[k], Later(g, custom, k))
  {
    hide Spell, Split, Read, Item, Separable;
    var later := Later(g, custom, k);
    PiecesExact(later);
    forall j | 0 <= j < |later|
      ensures Read(later[j]).name != Spell(ORDER[k])
    {
      var i := k + 1 + j;
      if i < |ORDER| {
        assert later[j] == Item(Fields(g)[i]);
        SpellPlain(ORDER[i]);
        ReadItem(Fields(g)[i]);
        OrderDistinct(k, i);
        SpellInjective(ORDER[k], ORDER[i]);
      } else {
        assert later[j] == custom[i - |ORDER|];
      }
    }
  }

  /** From the gateway's buffers to the portal's variables: if the message arrives, a variable whose name no later
      piece takes has the gateway's value if and only if that value is safe. */
  lemma PortalRecovers(g: Gateway, custom: seq<Text>, fasUrl: Text, k: nat)
    requires '?' !in fasUrl && Arrives(fasUrl, Message(g, custom))
    requires k < |ORDER| && ORDER[k] != ThemeSpec && NotTaken(ORDER[k], Later(g, custom, k))
    ensures var received := PortalText(QueryString(Redirect(fasUrl, Query(Message(g, custom)))));
            After(ORDER[k], Pairs(received)) == Some(Meant(g, ORDER[k])) <==> Safe(g(ORDER[k]))
  {
    hide Spell, Print, Pairs, Has, Item, Query, QueryString, PortalText, Redirect, Arrives, Read, Later, NotTaken,
         Meant, After;
    MessageNotEmpty(g, custom);
    TransportExact(fasUrl, Message(g, custom));
    VariableExact(g, custom, k);
  }

  lemma MessageNotEmpty(g: Gateway, custom: seq<Text>)
    ensures Message(g, custom) != []
  {
  }
}
