/** Which requests are added to the list, and with what. */
module Additions {
  import opened Clients
  import opened Session
  import opened Invariants
  import MacLists

  /** The list has a client at the address with the MAC, in any spelling. */
  predicate Known(w: World, mac: string, ip: string) {
    exists i :: 0 <= i < |w.clients| && w.clients[i].ip == ip && Lower(w.clients[i].mac) == Lower(mac)
  }

  predicate InTrusted(req: AddRequest) {
    exists k :: 0 <= k < |req.trustedMacs| && Lower(req.trustedMacs[k]) == Lower(req.mac)
  }

  /** A request that is added: MAC and address are well formed, DHCP has given the address out, the client is not known,
      the list is not full, and a token could be drawn. */
  predicate Added(w: World, req: AddRequest, cfg: Config) {
    && MacLists.MacFormat(req.mac) && req.ipValid && req.dhcpAllocated
    && !Known(w, req.mac, req.ip) && w.count < cfg.maxclients && req.tokenDrawn
  }

  /** The client that is added: the next id, the address and MAC as given, trusted exactly when the MAC is on the
      trusted list, active now, and zero everywhere else. */
  predicate New(c: ClientInfo, w: World, req: AddRequest) {
    && c.id == w.nextId && c.ip == req.ip && c.mac == req.mac
    && c.state == (if InTrusted(req) then Trusted else Preauthenticated)
    && c.counters == Counters(0, 0, 0, 0, 0, 0, 0, 0, 0, 0, req.at)
    && c.sessionStart == c.sessionEnd == 0 && !c.sessionEndExplicit
    && c.windowStart == c.windowCounter == 0 && c.rateExceeded == 0
    && c.uploadRate == c.downloadRate == c.uprate == c.downrate == c.uploadQuota == c.downloadQuota == 0
    && c.downloadBucketSize == c.uploadBucketSize == c.incPacketLimit == c.outPacketLimit == 0
  }

  lemma KnownFound(w: World, mac: string, ip: string)
    ensures var i := FirstIndex(w.clients, ByMacIp(mac, ip));
            (i < |w.clients| <==> Known(w, mac, ip))
            && (i < |w.clients| ==> w.clients[i].ip == ip && Lower(w.clients[i].mac) == Lower(mac))
  {
    var i := FirstIndex(w.clients, ByMacIp(mac, ip));
    if i < |w.clients| {
      assert Matches(w.clients[i], ByMacIp(mac, ip));
    }
    if k :| 0 <= k < |w.clients| && w.clients[k].ip == ip && Lower(w.clients[k].mac) == Lower(mac) {
      assert Matches(w.clients[k], ByMacIp(mac, ip));
    }
  }

  /** Exactly such a request is appended, as one new client at the end; nothing else of the list changes. */
  lemma AddExact(w: World, req: AddRequest, cfg: Config)
    ensures var u := AddUnpinned(w, req, cfg);
            if Added(w, req, cfg) then
              && u.clients[..|u.clients| - 1] == w.clients && New(u.clients[|u.clients| - 1], w, req)
              && u.nextId == w.nextId + 1 && u.count == w.count + 1
              && u.fw == w.fw && u.pins == w.pins && u.authCount == w.authCount
            else u == w
  {
    hide MacLists.MacFormat, Lower;
    KnownFound(w, req.mac, req.ip);
  }

  /** The request is served: by a known client or a new one. */
  predicate Served(w: World, req: AddRequest, cfg: Config) {
    Added(w, req, cfg) || (MacLists.MacFormat(req.mac) && req.ipValid && req.dhcpAllocated && Known(w, req.mac, req.ip))
  }

  /** The pinned form adds the same and pins the client of the request, exactly when there is one. */
  lemma AddPinnedExact(w: World, req: AddRequest, cfg: Config)
    requires Good(w, cfg)
    ensures var u, v := AddUnpinned(w, req, cfg), AddPinned(w, req, cfg);
            && v.clients == u.clients && v.nextId == u.nextId && v.fw == u.fw
            && if Served(w, req, cfg) then
                 exists i :: 0 <= i < |v.clients| && v.pins == w.pins + multiset{v.clients[i].id}
                             && v.clients[i].ip == req.ip && Lower(v.clients[i].mac) == Lower(req.mac)
               else v == w
  {
    hide MacLists.MacFormat, Lower, ListOk, ClientsOk, NoStaleRules, Conserved;
    KnownFound(w, req.mac, req.ip);
    var (u, at) := FindOrAppend(w, req, cfg);
    if Served(w, req, cfg) {
      var i := at.value;
      if i < |w.clients| {
        assert Listed(w.clients, w.clients[i].id);
      }
      assert u.clients[i].id in u.refs;
      assert u.clients[i].ip == req.ip && Lower(u.clients[i].mac) == Lower(req.mac);
    }
  }

  /** The lookup of a request: the client at its address with its MAC gets one more pin, exactly when there is one. */
  lemma FindPinExact(w: World, mac: string, ip: string, cfg: Config)
    requires Good(w, cfg)
    ensures var u := FindAndPin(w, mac, ip);
            if Known(w, mac, ip) then
              exists i :: 0 <= i < |w.clients| && u.pins == w.pins + multiset{w.clients[i].id}
                          && w.clients[i].ip == ip && Lower(w.clients[i].mac) == Lower(mac)
                          && u == w.(pins := u.pins, refs := u.refs)
            else u == w
  {
    hide Lower, ListOk, ClientsOk, NoStaleRules, Conserved;
    KnownFound(w, mac, ip);
    var i := FirstIndex(w.clients, ByMacIp(mac, ip));
    if i < |w.clients| {
      assert Listed(w.clients, w.clients[i].id);
      assert w.clients[i].id in w.refs;
    }
  }
}
