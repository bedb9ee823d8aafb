/** What every reachable state of the session engine satisfies. */
module Invariants {
  import opened Basics
  import opened Clients
  import opened Firewall
  import opened RateLimit
  import opened CounterRefresh
  import opened Session

  // ---- the invariants -------------------------------------------------------------------------

  /** Counters in order; the two limiter bits in 0..3 and equal to the last limiter action issued; a stored
      limit only while limiting; a preauthenticated client unlimited; a trusted one without rates or quotas;
      a zero bucket ratio never limits. */
  predicate ClientOk(c: ClientInfo, cfg: Config) {
    BitsOk(c, cfg) && (c.state == Preauthenticated ==> c.rateExceeded == 0)
  }

  predicate BitsOk(c: ClientInfo, cfg: Config) {
    && CountersOk(c.counters)
    && c.rateExceeded <= 3
    && (c.rateExceeded & 1 == 1 <==> c.downloadLimiting)
    && (c.rateExceeded & 2 == 2 <==> c.uploadLimiting)
    && (c.incPacketLimit != 0 || c.downloadBucketSize != 0 ==> c.downloadLimiting)
    && (c.outPacketLimit != 0 || c.uploadBucketSize != 0 ==> c.uploadLimiting)
    && (c.state == Trusted ==> c.downloadRate == c.uploadRate == c.downloadQuota == c.uploadQuota == 0)
    && (cfg.downloadBucketRatio == 0 ==> !c.downloadLimiting)
    && (cfg.uploadBucketRatio == 0 ==> !c.uploadLimiting)
  }

  predicate ClientsOk(w: World, cfg: Config) {
    forall i :: 0 <= i < |w.clients| ==> ClientOk(w.clients[i], cfg)
  }

  predicate Listed(cs: seq<ClientInfo>, id: nat) {
    exists i :: 0 <= i < |cs| && cs[i].id == id
  }

  /** Reference counts are the outstanding pins; the allocated nodes are the listed ones and the dead ones
      still pinned; and every id ever given out is allocated or has been freed exactly once. */
  ghost predicate MemoryOk(w: World) {
    && (forall id :: id in w.refs ==> w.refs[id] == w.pins[id])
    && (forall id :: id in w.pins ==> id in w.refs)
    && (forall id :: id in w.refs <==> Listed(w.clients, id) || id in w.dead)
    && (forall id :: id in w.dead ==> !Listed(w.clients, id) && w.pins[id] > 0)
    && (forall id :: id in w.freed ==> id !in w.refs && w.freed[id] == 1)
    && (forall id :: 1 <= id < w.nextId <==> id in w.refs || id in w.freed)
  }

  /** Ids grow along the list, the counter is the list's length and within bounds, and no two clients
      share both the address and the MAC. */
  predicate ListOk(w: World, cfg: Config) {
    && (forall i, j :: 0 <= i < j < |w.clients| ==> w.clients[i].id < w.clients[j].id)
    && (forall i :: 0 <= i < |w.clients| ==> 1 <= w.clients[i].id < w.nextId)
    && (forall i, j :: 0 <= i < j < |w.clients| ==>
          w.clients[i].ip != w.clients[j].ip || Lower(w.clients[i].mac) != Lower(w.clients[j].mac))
    && w.count == |w.clients| <= Max(0, cfg.maxclients)
    && w.nextId >= 1
  }

  predicate ActiveAddress(cs: seq<ClientInfo>, ip: string) {
    exists i :: 0 <= i < |cs| && Active(cs[i]) && cs[i].ip == ip
  }

  /** An address without an authenticated or throttled client has no rule in any chain. */
  ghost predicate NoStaleRules(w: World) {
    forall ip: string :: !ActiveAddress(w.clients, ip) ==> View(w.fw, ip) == EMPTY
  }

  function ActiveCount(cs: seq<ClientInfo>): nat {
    if cs == [] then 0 else (if Active(cs[0]) then 1 else 0) + ActiveCount(cs[1..])
  }

  predicate Conserved(w: World) {
    && w.authCount == (ActiveCount(w.clients) + w.deauths) % TWO_TO_THE_32
    && w.nextId - 1 == w.count + w.deletions
  }

  ghost predicate Sound(w: World, cfg: Config) {
    MemoryOk(w) && ListOk(w, cfg) && ClientsOk(w, cfg) && NoStaleRules(w)
  }

  ghost predicate Good(w: World, cfg: Config) {
    Sound(w, cfg) && Conserved(w)
  }

  /** Every authenticated or throttled client has exactly its six rules. */
  predicate RulesExact(w: World) {
    forall i :: 0 <= i < |w.clients| && Active(w.clients[i]) ==> HasRules(w.clients[i], View(w.fw, w.clients[i].ip))
  }

  /** No other active client has the address of the client at i. */
  predicate Alone(cs: seq<ClientInfo>, i: nat)
    requires i < |cs|
  {
    forall j :: 0 <= j < |cs| && j != i && Active(cs[j]) ==> cs[j].ip != cs[i].ip
  }

  /** Exact rules leave no room for two active clients at one address. */
  lemma ExactMeansAlone(w: World, i: nat, cfg: Config)
    requires i < |w.clients| && Active(w.clients[i])
    requires RulesExact(w) && ListOk(w, cfg)
    ensures Alone(w.clients, i)
  {
    hide View;
    forall j | 0 <= j < |w.clients| && j != i && Active(w.clients[j])
      ensures w.clients[j].ip != w.clients[i].ip
    {
      var c, d := w.clients[i], w.clients[j];
      assert HasRules(c, View(w.fw, c.ip)) && HasRules(d, View(w.fw, d.ip));
    }
  }

  // ---- steps that keep every identity ---------------------------------------------------------

  /** u differs from w in client fields other than identity, and in the firewall, only; and no state other
      than that of the client at i has changed. */
  predicate Touches(w: World, u: World, i: nat)
    requires i < |w.clients|
  {
    && u == w.(clients := u.clients, fw := u.fw)
    && SameIdentities(w.clients, u.clients)
    && forall j :: 0 <= j < |w.clients| && j != i ==> u.clients[j].state == w.clients[j].state
  }

  lemma ListedSame(cs: seq<ClientInfo>, ds: seq<ClientInfo>)
    requires SameIdentities(cs, ds)
    ensures forall id :: Listed(cs, id) <==> Listed(ds, id)
  {
    forall id | Listed(cs, id)
      ensures Listed(ds, id)
    {
      var i :| 0 <= i < |cs| && cs[i].id == id;
      assert SameIdentity(cs[i], ds[i]);
    }
    forall id | Listed(ds, id)
      ensures Listed(cs, id)
    {
      var i :| 0 <= i < |ds| && ds[i].id == id;
      assert SameIdentity(cs[i], ds[i]);
    }
  }

  lemma TouchKeeps(w: World, u: World, i: nat, cfg: Config)
    requires i < |w.clients| && Touches(w, u, i)
    requires MemoryOk(w) && ListOk(w, cfg)
    ensures MemoryOk(u) && ListOk(u, cfg)
  {
    ListedSame(w.clients, u.clients);
    assert forall j :: 0 <= j < |w.clients| ==> SameIdentity(w.clients[j], u.clients[j]);
  }

  lemma {:induction false} CountChange(cs: seq<ClientInfo>, ds: seq<ClientInfo>, i: nat)
    requires |cs| == |ds| && i < |cs|
    requires forall j :: 0 <= j < |cs| && j != i ==> ds[j].state == cs[j].state
    ensures ActiveCount(ds) + (if Active(cs[i]) then 1 else 0) == ActiveCount(cs) + (if Active(ds[i]) then 1 else 0)
  {
    if i > 0 {
      CountChange(cs[1..], ds[1..], i - 1);
    } else {
      CountSame(cs[1..], ds[1..]);
    }
  }

  lemma {:induction false} CountSame(cs: seq<ClientInfo>, ds: seq<ClientInfo>)
    requires |cs| == |ds|
    requires forall j :: 0 <= j < |cs| ==> ds[j].state == cs[j].state
    ensures ActiveCount(ds) == ActiveCount(cs)
  {
    if cs != [] {
      CountSame(cs[1..], ds[1..]);
    }
  }

  lemma {:induction false} CountRemove(cs: seq<ClientInfo>, i: nat)
    requires i < |cs|
    ensures ActiveCount(cs) == ActiveCount(cs[..i] + cs[i + 1..]) + (if Active(cs[i]) then 1 else 0)
  {
    if i == 0 {
      assert cs[..0] + cs[1..] == cs[1..];
    } else {
      CountRemove(cs[1..], i - 1);
      assert (cs[..i] + cs[i + 1..])[1..] == cs[1..][..i - 1] + cs[1..][i..];
    }
  }

  lemma {:induction false} CountAppend(cs: seq<ClientInfo>, c: ClientInfo)
    ensures ActiveCount(cs + [c]) == ActiveCount(cs) + (if Active(c) then 1 else 0)
  {
    if cs == [] {
      assert cs + [c] == [c];
    } else {
      CountAppend(cs[1..], c);
      assert (cs + [c])[1..] == cs[1..] + [c];
    }
  }

  /** The view changes at one address only; and where it was empty it stays empty. */
  ghost predicate FirewallLocal(fw: Chains, fw': Chains, ip: string) {
    && (forall other: string :: other != ip ==> View(fw', other) == View(fw, other))
    && (View(fw, ip) == EMPTY ==> View(fw', ip) == EMPTY)
  }

  /** No rule goes stale in a step at one client's address that leaves that address without rules or active. */
  lemma NoStaleAt(w: World, u: World, i: nat)
    requires i < |w.clients| && NoStaleRules(w)
    requires Touches(w, u, i)
    requires forall other: string :: other != w.clients[i].ip ==> View(u.fw, other) == View(w.fw, other)
    requires View(u.fw, w.clients[i].ip) == EMPTY || ActiveAddress(u.clients, w.clients[i].ip)
    ensures NoStaleRules(u)
  {
    forall ip: string | !ActiveAddress(u.clients, ip) && ip != w.clients[i].ip
      ensures !ActiveAddress(w.clients, ip)
    {
      forall j | 0 <= j < |w.clients| && w.clients[j].ip == ip
        ensures !Active(w.clients[j])
      {
        assert SameIdentity(w.clients[j], u.clients[j]);
      }
    }
  }

  /** A step on one client that keeps its state, with the firewall changing only at its address. */
  lemma PutKeepsGood(w: World, i: nat, x: Cell, cfg: Config)
    requires i < |w.clients| && Good(w, cfg)
    requires SameIdentity(w.clients[i], x.c) && x.c.state == w.clients[i].state
    requires ClientOk(x.c, cfg)
    requires FirewallLocal(w.fw, x.fw, x.c.ip)
    ensures Good(Put(w, i, x), cfg)
  {
    hide MemoryOk, ListOk, NoStaleRules, BitsOk, View;
    PutNoStale(w, i, x);
    TouchKeeps(w, Put(w, i, x), i, cfg);
    assert Conserved(Put(w, i, x)) by {
      CountChange(w.clients, Put(w, i, x).clients, i);
    }
  }

  lemma PutNoStale(w: World, i: nat, x: Cell)
    requires i < |w.clients| && NoStaleRules(w)
    requires SameIdentity(w.clients[i], x.c) && x.c.state == w.clients[i].state
    requires FirewallLocal(w.fw, x.fw, x.c.ip)
    ensures Touches(w, Put(w, i, x), i) && NoStaleRules(Put(w, i, x))
  {
    var u := Put(w, i, x);
    SameActiveAddress(w.clients, u.clients, x.c.ip);
    NoStaleAt(w, u, i);
  }

  lemma SameActiveAddress(cs: seq<ClientInfo>, ds: seq<ClientInfo>, ip: string)
    requires |cs| == |ds|
    requires forall j :: 0 <= j < |cs| && Active(cs[j]) ==> Active(ds[j]) && ds[j].ip == cs[j].ip
    ensures ActiveAddress(cs, ip) ==> ActiveAddress(ds, ip)
  {
    if ActiveAddress(cs, ip) {
      var j :| 0 <= j < |cs| && Active(cs[j]) && cs[j].ip == ip;
      assert Active(ds[j]) && ds[j].ip == ip;
    }
  }

  // ---- the limiter ----------------------------------------------------------------------------

  /** What one limiter action, or a chain of them, keeps: who the client is, its state and byte counts, a
      firewall change at its own address only, and the exact rules of a client that has them. */
  ghost predicate CellKept(x: Cell, y: Cell) {
    && SameIdentity(x.c, y.c) && y.c.state == x.c.state
    && y.c.counters == x.c.counters
    && FirewallLocal(x.fw, y.fw, x.c.ip)
    && (HasRules(x.c, View(x.fw, x.c.ip)) ==> HasRules(y.c, View(y.fw, y.c.ip)))
  }

  lemma CellKeptTransitive(x: Cell, y: Cell, z: Cell)
    requires CellKept(x, y) && CellKept(y, z)
    ensures CellKept(x, z)
  {
  }

  /** A rate chain as one client has it: its return rule, limited exactly by the limit stored with the
      client and only while limiting is on, and after it its drop rule. */
  predicate RatePair(chain: seq<Rule>, ip: string, packetLimit: U64, bucket: U64, limiting: bool) {
    && |chain| == 2
    && chain[0] == Rule(ip, None, Return, chain[0].limit)
    && chain[1] == Rule(ip, None, Drop, None)
    && match chain[0].limit
       case None => packetLimit == 0 && bucket == 0
       case Some(limit) => limit == Limit(packetLimit, bucket) && limiting
  }

  /** The chains hold, for this client's address, exactly its six rules. */
  predicate HasRules(c: ClientInfo, v: Chains) {
    && v.outgoing == [Rule(c.ip, Some(c.mac), SetMark, None)]
    && v.incoming == [Rule(c.ip, None, SetMark, None)]
    && RatePair(v.uploadRate, c.ip, c.outPacketLimit, c.uploadBucketSize, c.uploadLimiting)
    && RatePair(v.downloadRate, c.ip, c.incPacketLimit, c.downloadBucketSize, c.downloadLimiting)
  }

  lemma ReplaceInPair(chain: seq<Rule>, ip: string, limit: Option<Limit>)
    requires |chain| == 2 && chain[0].ip == ip && chain[0].verdict == Return && chain[1].verdict == Drop
    ensures ReplaceReturn(chain, ip, limit) == [Rule(ip, None, Return, limit), chain[1]]
  {
    assert chain[1..][1..] == [];
    assert ReplaceReturn(chain[1..], ip, limit) == [chain[1]];
  }

  lemma DownloadFirewall(fw: Chains, ip: string, limit: Option<Limit>)
    ensures FirewallLocal(fw, ReplaceDownload(fw, ip, limit), ip)
    ensures View(ReplaceDownload(fw, ip, limit), ip) == ReplaceDownload(View(fw, ip), ip, limit)
  {
    forall other: string
      ensures other != ip ==> View(ReplaceDownload(fw, ip, limit), other) == View(fw, other)
    {
      ViewReplaceDownload(fw, ip, limit, other);
    }
    ViewReplaceDownload(fw, ip, limit, ip);
  }

  lemma UploadFirewall(fw: Chains, ip: string, limit: Option<Limit>)
    ensures FirewallLocal(fw, ReplaceUpload(fw, ip, limit), ip)
    ensures View(ReplaceUpload(fw, ip, limit), ip) == ReplaceUpload(View(fw, ip), ip, limit)
  {
    forall other: string
      ensures other != ip ==> View(ReplaceUpload(fw, ip, limit), other) == View(fw, other)
    {
      ViewReplaceUpload(fw, ip, limit, other);
    }
    ViewReplaceUpload(fw, ip, limit, ip);
  }

  /** What a download limiter action does to the client apart from its limit: only the history bit. */
  predicate DownloadOnly(c: ClientInfo, d: ClientInfo, enable: bool) {
    && d == c.(incPacketLimit := d.incPacketLimit, downloadBucketSize := d.downloadBucketSize,
               downloadLimiting := enable)
    && (!enable ==> d.incPacketLimit == 0 && d.downloadBucketSize == 0)
  }

  predicate UploadOnly(c: ClientInfo, d: ClientInfo, enable: bool) {
    && d == c.(outPacketLimit := d.outPacketLimit, uploadBucketSize := d.uploadBucketSize, uploadLimiting := enable)
    && (!enable ==> d.outPacketLimit == 0 && d.uploadBucketSize == 0)
  }

  lemma LimitDownloadKept(x: Cell, enable: bool, cfg: Config)
    requires enable || x.c.downloadRate > 0
    ensures var y := LimitDownload(x, enable, cfg); CellKept(x, y) && DownloadOnly(x.c, y.c, enable)
  {
    var limit := if enable then Some(DownloadLimit(x.c, cfg)) else None;
    DownloadFirewall(x.fw, x.c.ip, limit);
    var v := View(x.fw, x.c.ip);
    if HasRules(x.c, v) && x.c.downloadRate > 0 {
      ReplaceInPair(v.downloadRate, x.c.ip, limit);
    }
  }

  lemma LimitUploadKept(x: Cell, enable: bool, cfg: Config)
    requires enable || x.c.uploadRate > 0
    ensures var y := LimitUpload(x, enable, cfg); CellKept(x, y) && UploadOnly(x.c, y.c, enable)
  {
    var limit := if enable then Some(UploadLimit(x.c, cfg)) else None;
    UploadFirewall(x.fw, x.c.ip, limit);
    var v := View(x.fw, x.c.ip);
    if HasRules(x.c, v) && x.c.uploadRate > 0 {
      ReplaceInPair(v.uploadRate, x.c.ip, limit);
    }
  }

  // A limiter action and the bit that records it.

  lemma EnableDownloadOk(x: Cell, bits: bv32, cfg: Config)
    requires BitsOk(x.c, cfg)
    requires cfg.downloadBucketRatio > 0
    requires bits == x.c.rateExceeded | 1
    ensures var y := WithBits(LimitDownload(x, true, cfg), bits); CellKept(x, y) && BitsOk(y.c, cfg)
  {
    LimitDownloadKept(x, true, cfg);
    SetBit0(x.c.rateExceeded);
  }

  lemma EnableUploadOk(x: Cell, bits: bv32, cfg: Config)
    requires BitsOk(x.c, cfg)
    requires cfg.uploadBucketRatio > 0
    requires bits == x.c.rateExceeded | 2
    ensures var y := WithBits(LimitUpload(x, true, cfg), bits); CellKept(x, y) && BitsOk(y.c, cfg)
  {
    LimitUploadKept(x, true, cfg);
    SetBit1(x.c.rateExceeded);
  }

  lemma SetBit0(bits: bv32)
    requires bits <= 3
    ensures bits | 1 <= 3 && (bits | 1) & 1 == 1 && (bits | 1) & 2 == bits & 2
    ensures bits & 1 == 0 ==> bits ^ 1 == bits | 1
    ensures bits & 1 == 1 ==> bits ^ 1 <= 3 && (bits ^ 1) & 1 == 0 && (bits ^ 1) & 2 == bits & 2
    ensures bits & 1 == 1 ==> bits | 1 == bits
  {
  }

  lemma SetBit1(bits: bv32)
    requires bits <= 3
    ensures bits | 2 <= 3 && (bits | 2) & 2 == 2 && (bits | 2) & 1 == bits & 1
    ensures bits & 2 == 0 ==> bits ^ 2 == bits | 2
    ensures bits & 2 == 2 ==> bits ^ 2 <= 3 && (bits ^ 2) & 2 == 0 && (bits ^ 2) & 1 == bits & 1
    ensures bits & 2 == 2 ==> bits | 2 == bits
  {
  }

  lemma ExceedDownloadOk(x: Cell, cfg: Config)
    requires BitsOk(x.c, cfg)
    ensures var y := ExceedDownload(x, cfg); CellKept(x, y) && BitsOk(y.c, cfg)
    ensures ExceedDownload(x, cfg).c.windowCounter == x.c.windowCounter
  {
    SetBit0(x.c.rateExceeded);
    if ExceedDownload(x, cfg) != x {
      EnableDownloadOk(x, x.c.rateExceeded ^ 1, cfg);
    }
  }

  lemma ExceedUploadOk(x: Cell, cfg: Config)
    requires BitsOk(x.c, cfg)
    ensures var y := ExceedUpload(x, cfg); CellKept(x, y) && BitsOk(y.c, cfg)
    ensures ExceedUpload(x, cfg).c.windowCounter == x.c.windowCounter
  {
    SetBit1(x.c.rateExceeded);
    if ExceedUpload(x, cfg) != x {
      EnableUploadOk(x, x.c.rateExceeded ^ 2, cfg);
    }
  }

  lemma ExpireDownloadOk(x: Cell, cfg: Config)
    requires BitsOk(x.c, cfg)
    ensures var y := ExpireDownload(x, cfg); CellKept(x, y) && BitsOk(y.c, cfg)
    ensures ExpireDownload(x, cfg).c.windowCounter == x.c.windowCounter
  {
    SetBit0(x.c.rateExceeded);
    if x.c.downloadRate > 0 && x.c.rateExceeded & 1 == 1 {
      var y := LimitDownload(x, false, cfg);
      LimitDownloadKept(x, false, cfg);
      LimitDownloadKept(y, true, cfg);
      CellKeptTransitive(x, y, LimitDownload(y, true, cfg));
    }
  }

  lemma ExpireUploadOk(x: Cell, cfg: Config)
    requires BitsOk(x.c, cfg)
    ensures var y := ExpireUpload(x, cfg); CellKept(x, y) && BitsOk(y.c, cfg)
    ensures ExpireUpload(x, cfg).c.windowCounter == x.c.windowCounter
  {
    SetBit1(x.c.rateExceeded);
    if x.c.uploadRate > 0 && x.c.rateExceeded & 2 == 2 {
      var y := LimitUpload(x, false, cfg);
      LimitUploadKept(x, false, cfg);
      LimitUploadKept(y, true, cfg);
      CellKeptTransitive(x, y, LimitUpload(y, true, cfg));
    }
  }

  lemma AuthLimitersOk(x: Cell, cfg: Config)
    requires BitsOk(x.c, cfg) && x.c.rateExceeded == 0
    ensures var y := AuthUpload(AuthDownload(x, cfg), cfg); CellKept(x, y) && BitsOk(y.c, cfg)
  {
    var y := AuthDownload(x, cfg);
    SetBit0(x.c.rateExceeded);
    if y != x {
      EnableDownloadOk(x, x.c.rateExceeded ^ 1, cfg);
    }
    SetBit1(y.c.rateExceeded);
    if AuthUpload(y, cfg) != y {
      EnableUploadOk(y, y.c.rateExceeded ^ 2, cfg);
      CellKeptTransitive(x, y, AuthUpload(y, cfg));
    }
  }

  lemma BlockLimitersOk(x: Cell, cfg: Config)
    requires BitsOk(x.c, cfg)
    ensures var y := BlockUpload(BlockDownload(x, cfg), cfg); CellKept(x, y) && BitsOk(y.c, cfg)
  {
    var y := BlockDownload(x, cfg);
    if y != x {
      EnableDownloadOk(x, x.c.rateExceeded | 1, cfg);
    }
    if BlockUpload(y, cfg) != y {
      EnableUploadOk(y, y.c.rateExceeded | 2, cfg);
      CellKeptTransitive(x, y, BlockUpload(y, cfg));
    }
  }

  lemma ExceedOk(x: Cell, cfg: Config)
    requires BitsOk(x.c, cfg)
    ensures var y := Exceed(x, cfg); CellKept(x, y) && BitsOk(y.c, cfg) && y.c.windowCounter == x.c.windowCounter
  {
    ExceedDownloadOk(x, cfg);
    var y := ExceedDownload(x, cfg);
    ExceedUploadOk(y, cfg);
    CellKeptTransitive(x, y, ExceedUpload(y, cfg));
  }

  lemma ExpireOk(x: Cell, now: int, cfg: Config)
    requires BitsOk(x.c, cfg)
    ensures var e, y := x.(c := StartWindow(x.c, now, cfg)), Expire(x, now, cfg);
            CellKept(e, y) && BitsOk(y.c, cfg) && y.c.windowCounter == e.c.windowCounter
  {
    var e := x.(c := StartWindow(x.c, now, cfg));
    ExpireDownloadOk(e, cfg);
    var y := ExpireDownload(e, cfg);
    ExpireUploadOk(y, cfg);
    CellKeptTransitive(e, y, ExpireUpload(y, cfg));
  }

  /** What the rate section keeps of a client and its rules. */
  ghost predicate RatesKept(x: Cell, y: Cell) {
    && SameIdentity(x.c, y.c) && y.c.state == x.c.state
    && FirewallLocal(x.fw, y.fw, x.c.ip)
    && (HasRules(x.c, View(x.fw, x.c.ip)) ==> HasRules(y.c, View(y.fw, y.c.ip)))
  }

  /** Everything a pass does to one client's rates keeps its invariant and its rules. */
  lemma CheckRatesOk(x: Cell, now: int, cfg: Config)
    requires BitsOk(x.c, cfg)
    ensures RatesKept(x, CheckRates(x, now, cfg)) && BitsOk(CheckRates(x, now, cfg).c, cfg)
  {
    hide Exceed, Expire, View;
    var a := x.(c := Measure(x.c, now));
    ExceedOk(a, cfg);
    var y := Exceed(a, cfg);
    assert RatesKept(x, y);
    if y.c.windowCounter <= 1 {
      ExpireOk(y, now, cfg);
      assert RatesKept(x, y.(c := StartWindow(y.c, now, cfg)));
    }
  }
}
