/** The client record of client_list.h, the configuration values the session engine reads,
    and the linear searches over the client list. */
module Clients {
  import opened Basics

  /** The four firewall marks, taken to be pairwise distinct. */
  datatype Mark = Preauthenticated | Authenticated | AuthBlocked | Trusted

  datatype Direction = Download | Upload

  datatype Counters = Counters(
    incoming: U64, incomingPrevious: U64,
    outgoing: U64, outgoingPrevious: U64,
    inpackets: U64, inpacketsPrevious: U64,
    outpackets: U64, outpacketsPrevious: U64,
    inWindowStart: U64, outWindowStart: U64,
    lastUpdated: int)

  /** One client. `downloadLimiting` and `uploadLimiting` are history variables: whether the last
      limiter action issued for this client, in that direction, was ENABLE. */
  datatype ClientInfo = ClientInfo(
    id: nat, ip: string, mac: string,
    state: Mark,
    sessionStart: int, sessionEnd: int, sessionEndExplicit: bool,
    windowStart: int, windowCounter: int,
    rateExceeded: bv32,
    counters: Counters,
    uploadRate: U64, downloadRate: U64,
    uprate: U64, downrate: U64,
    uploadQuota: U64, downloadQuota: U64,
    downloadBucketSize: U64, uploadBucketSize: U64,
    incPacketLimit: U64, outPacketLimit: U64,
    downloadLimiting: bool, uploadLimiting: bool)

  datatype Config = Config(
    maxclients: int,
    preauthIdleSecs: int, authIdleSecs: int,
    rateCheckWindow: int,
    downloadRate: U64, uploadRate: U64,
    downloadQuota: U64, uploadQuota: U64,
    downloadBucketRatio: U64, uploadBucketRatio: U64,
    maxDownloadBucketSize: U64, maxUploadBucketSize: U64,
    fupDownloadThrottleRate: U64, fupUploadThrottleRate: U64,
    downloadUnrestrictedBursting: int, uploadUnrestrictedBursting: int)

  /** C `tolower` on ASCII. */
  function LowerChar(c: char): char {
    if 'A' <= c <= 'Z' then (c as int + 32) as char else c
  }

  function Lower(s: string): (r: string)
    ensures |r| == |s|
    ensures forall i :: 0 <= i < |s| ==> r[i] == LowerChar(s[i])
  {
    seq(|s|, i requires 0 <= i < |s| => LowerChar(s[i]))
  }

  lemma LowerIdempotent(s: string)
    ensures Lower(Lower(s)) == Lower(s)
  {
  }

  /** What a search looks for. MAC addresses compare without case, addresses exactly. */
  datatype Key = ById(id: nat) | ByIp(ip: string) | ByMacIp(mac: string, ip: string)

  predicate Matches(c: ClientInfo, key: Key) {
    match key
    case ById(id) => c.id == id
    case ByIp(ip) => c.ip == ip
    case ByMacIp(mac, ip) => Lower(c.mac) == Lower(mac) && c.ip == ip
  }

  /** The position of the first client that matches, or the length of the list. */
  function FirstIndex(cs: seq<ClientInfo>, key: Key): (r: nat)
    ensures r <= |cs|
    ensures r < |cs| ==> Matches(cs[r], key)
    ensures forall j :: 0 <= j < r ==> !Matches(cs[j], key)
  {
    if cs == [] then 0
    else if Matches(cs[0], key) then 0
    else 1 + FirstIndex(cs[1..], key)
  }

  /** The three postconditions of FirstIndex determine it. */
  lemma FirstIndexUnique(cs: seq<ClientInfo>, key: Key, r: nat)
    requires r <= |cs|
    requires r < |cs| ==> Matches(cs[r], key)
    requires forall j :: 0 <= j < r ==> !Matches(cs[j], key)
    ensures FirstIndex(cs, key) == r
  {
  }

  predicate SameIdentity(c: ClientInfo, d: ClientInfo) {
    c.id == d.id && c.ip == d.ip && c.mac == d.mac
  }

  /** Same clients in the same order; only fields other than id, ip and mac may differ. */
  predicate SameIdentities(cs: seq<ClientInfo>, ds: seq<ClientInfo>) {
    |cs| == |ds| && forall i :: 0 <= i < |cs| ==> SameIdentity(cs[i], ds[i])
  }

  lemma FirstIndexSame(cs: seq<ClientInfo>, ds: seq<ClientInfo>, key: Key)
    requires SameIdentities(cs, ds)
    ensures FirstIndex(cs, key) == FirstIndex(ds, key)
  {
    var r := FirstIndex(cs, key);
    assert r < |cs| ==> Matches(cs[r], key) && SameIdentity(cs[r], ds[r]);
    forall j | 0 <= j < r
      ensures !Matches(ds[j], key)
    {
      assert SameIdentity(cs[j], ds[j]) && !Matches(cs[j], key);
    }
    FirstIndexUnique(ds, key, r);
  }

  predicate DistinctIps(cs: seq<ClientInfo>) {
    forall i, j :: 0 <= i < j < |cs| ==> cs[i].ip != cs[j].ip
  }

  predicate Active(c: ClientInfo) {
    c.state == Authenticated || c.state == AuthBlocked
  }

  function Ids(cs: seq<ClientInfo>): (r: seq<nat>)
    ensures |r| == |cs|
    ensures forall i :: 0 <= i < |cs| ==> r[i] == cs[i].id
  {
    seq(|cs|, i requires 0 <= i < |cs| => cs[i].id)
  }
}
