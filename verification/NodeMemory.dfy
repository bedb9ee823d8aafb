/** Pins, deletion and freeing: the life of a client node. */
module NodeMemory {
  import opened Clients
  import opened Firewall
  import opened Session
  import opened Invariants

  // ---- deletion -------------------------------------------------------------------------------

  function Removed(cs: seq<ClientInfo>, i: nat): (r: seq<ClientInfo>)
    requires i < |cs|
    ensures |r| == |cs| - 1
    ensures forall j :: 0 <= j < |r| ==> r[j] == cs[if j < i then j else j + 1]
  {
    cs[..i] + cs[i + 1..]
  }

  lemma ListedRemoved(w: World, i: nat, cfg: Config)
    requires i < |w.clients| && ListOk(w, cfg)
    ensures forall id :: Listed(Removed(w.clients, i), id) <==> Listed(w.clients, id) && id != w.clients[i].id
  {
    var cs, ds := w.clients, Removed(w.clients, i);
    forall id | Listed(cs, id) && id != cs[i].id
      ensures Listed(ds, id)
    {
      var j :| 0 <= j < |cs| && cs[j].id == id;
      assert ds[if j < i then j else j - 1].id == id;
    }
    forall id | Listed(ds, id)
      ensures Listed(cs, id) && id != cs[i].id
    {
      var j :| 0 <= j < |ds| && ds[j].id == id;
      assert cs[if j < i then j else j + 1].id == id;
    }
  }

  /** What is left of the memory invariant while the node of `id` is unlinked but neither dead nor freed. */
  ghost predicate UnlinkedNode(u: World, id: nat) {
    && id in u.refs && id !in u.dead && !Listed(u.clients, id)
    && (forall k :: k in u.refs ==> u.refs[k] == u.pins[k])
    && (forall k :: k in u.pins ==> k in u.refs)
    && (forall k :: k in u.refs <==> Listed(u.clients, k) || k in u.dead || k == id)
    && (forall k :: k in u.dead ==> !Listed(u.clients, k) && u.pins[k] > 0)
    && (forall k :: k in u.freed ==> k !in u.refs && u.freed[k] == 1)
    && (forall k :: 1 <= k < u.nextId <==> k in u.refs || k in u.freed)
  }

  lemma UnlinkMemory(w: World, i: nat, cfg: Config)
    requires i < |w.clients| && MemoryOk(w) && ListOk(w, cfg)
    ensures UnlinkedNode(Unlink(w, i), w.clients[i].id)
  {
    ListedRemoved(w, i, cfg);
    assert Listed(w.clients, w.clients[i].id);
    assert Unlink(w, i).clients == Removed(w.clients, i);
  }

  lemma FreeMemory(u: World, id: nat)
    requires UnlinkedNode(u, id) && u.refs[id] == 0
    ensures MemoryOk(Free(u, id))
  {
  }

  lemma DeleteKeepsMemory(w: World, i: nat, cfg: Config)
    requires i < |w.clients| && MemoryOk(w) && ListOk(w, cfg)
    ensures MemoryOk(DeleteAt(w, i))
  {
    var id, u := w.clients[i].id, Unlink(w, i);
    UnlinkMemory(w, i, cfg);
    if w.refs[id] > 0 {
      assert MemoryOk(u.(dead := u.dead + {id}));
    } else {
      FreeMemory(u, id);
    }
  }

  lemma DeleteKeepsList(w: World, i: nat, cfg: Config)
    requires i < |w.clients| && ListOk(w, cfg)
    ensures ListOk(DeleteAt(w, i), cfg)
  {
    var u := DeleteAt(w, i);
    assert u.clients == Removed(w.clients, i) && u.nextId == w.nextId && u.count == w.count - 1;
    RemovedOrdered(w.clients, i, w.nextId);
  }

  lemma RemovedOrdered(cs: seq<ClientInfo>, i: nat, nextId: nat)
    requires i < |cs|
    requires forall j, k :: 0 <= j < k < |cs| ==> cs[j].id < cs[k].id
    requires forall j :: 0 <= j < |cs| ==> 1 <= cs[j].id < nextId
    requires forall j, k :: 0 <= j < k < |cs| ==> cs[j].ip != cs[k].ip || Lower(cs[j].mac) != Lower(cs[k].mac)
    ensures var r := Removed(cs, i);
            && (forall j, k :: 0 <= j < k < |r| ==> r[j].id < r[k].id)
            && (forall j :: 0 <= j < |r| ==> 1 <= r[j].id < nextId)
            && forall j, k :: 0 <= j < k < |r| ==> r[j].ip != r[k].ip || Lower(r[j].mac) != Lower(r[k].mac)
  {
    hide Lower;
  }

  lemma DeleteKeepsClients(w: World, i: nat, cfg: Config)
    requires i < |w.clients| && ClientsOk(w, cfg)
    ensures ClientsOk(DeleteAt(w, i), cfg)
  {
    assert DeleteAt(w, i).clients == Removed(w.clients, i);
  }

  lemma ActiveAddressRemoved(cs: seq<ClientInfo>, i: nat, ip: string)
    requires i < |cs|
    requires !Active(cs[i]) || cs[i].ip != ip
    ensures ActiveAddress(cs, ip) ==> ActiveAddress(Removed(cs, i), ip)
  {
    if ActiveAddress(cs, ip) {
      var j :| 0 <= j < |cs| && Active(cs[j]) && cs[j].ip == ip;
      assert Removed(cs, i)[if j < i then j else j - 1] == cs[j];
    }
  }

  lemma DeleteInactiveNoStale(w: World, i: nat)
    requires i < |w.clients| && NoStaleRules(w) && !Active(w.clients[i])
    ensures NoStaleRules(DeleteAt(w, i))
  {
    var u := DeleteAt(w, i);
    forall ip: string | !ActiveAddress(u.clients, ip)
      ensures View(u.fw, ip) == EMPTY
    {
      ActiveAddressRemoved(w.clients, i, ip);
    }
  }

  lemma DeleteInactiveConserved(w: World, i: nat)
    requires i < |w.clients| && Conserved(w) && !Active(w.clients[i])
    ensures Conserved(DeleteAt(w, i))
  {
    CountRemove(w.clients, i);
  }

  /** Unlinking a client that is not active: nothing else can notice. */
  lemma DeleteInactiveGood(w: World, i: nat, cfg: Config)
    requires i < |w.clients| && Good(w, cfg) && !Active(w.clients[i])
    ensures Good(DeleteAt(w, i), cfg)
  {
    DeleteKeepsMemory(w, i, cfg);
    DeleteKeepsList(w, i, cfg);
    DeleteKeepsClients(w, i, cfg);
    DeleteInactiveNoStale(w, i);
    DeleteInactiveConserved(w, i);
  }

  lemma DeleteInactiveExact(w: World, i: nat)
    requires i < |w.clients| && RulesExact(w)
    ensures RulesExact(DeleteAt(w, i))
  {
    assert DeleteAt(w, i).clients == Removed(w.clients, i);
  }

  lemma RevokeNoStale(w: World, i: nat)
    requires i < |w.clients| && NoStaleRules(w)
    ensures NoStaleRules(Revoke(w, i))
  {
    var u := Revoke(w, i);
    forall ip: string | !ActiveAddress(u.clients, ip)
      ensures View(u.fw, ip) == EMPTY
    {
      ViewDeauthenticate(w.fw, w.clients[i].ip, ip);
      if ip != w.clients[i].ip {
        ActiveAddressRemoved(w.clients, i, ip);
      }
    }
  }

  /** The memory invariant reads nothing of the firewall or the history counters. */
  lemma MemoryReads(w: World, u: World)
    requires MemoryOk(w)
    requires u == w.(count := u.count, fw := u.fw, authCount := u.authCount, deauths := u.deauths,
                     deletions := u.deletions)
    ensures MemoryOk(u)
  {
  }

  lemma RevokeMemory(w: World, i: nat, cfg: Config)
    requires i < |w.clients| && MemoryOk(w) && ListOk(w, cfg)
    ensures MemoryOk(Revoke(w, i))
  {
    var v := w.(fw := Deauthenticate(w.fw, w.clients[i].ip));
    MemoryReads(w, v);
    DeleteKeepsMemory(v, i, cfg);
    MemoryReads(DeleteAt(v, i), Revoke(w, i));
  }

  lemma RevokeList(w: World, i: nat, cfg: Config)
    requires i < |w.clients| && ListOk(w, cfg) && ClientsOk(w, cfg)
    ensures ListOk(Revoke(w, i), cfg) && ClientsOk(Revoke(w, i), cfg)
  {
    DeleteKeepsList(w, i, cfg);
    DeleteKeepsClients(w, i, cfg);
    var u, v := DeleteAt(w, i), Revoke(w, i);
    assert v.clients == u.clients && v.count == u.count && v.nextId == u.nextId;
  }

  lemma RevokeConserved(w: World, i: nat)
    requires i < |w.clients| && Conserved(w) && Active(w.clients[i])
    ensures Conserved(Revoke(w, i))
  {
    CountRemove(w.clients, i);
  }

  /** A deauthentication: one active client fewer and one completed deauthentication more. */
  lemma RevokeGood(w: World, i: nat, cfg: Config)
    requires i < |w.clients| && Good(w, cfg) && Active(w.clients[i])
    ensures Good(Revoke(w, i), cfg)
  {
    RevokeNoStale(w, i);
    RevokeMemory(w, i, cfg);
    RevokeList(w, i, cfg);
    RevokeConserved(w, i);
  }

  lemma RevokeExact(w: World, i: nat, cfg: Config)
    requires i < |w.clients| && Active(w.clients[i])
    requires RulesExact(w) && ListOk(w, cfg)
    ensures RulesExact(Revoke(w, i))
  {
    var u := Revoke(w, i);
    assert u.clients == Removed(w.clients, i);
    ExactMeansAlone(w, i, cfg);
    forall j | 0 <= j < |u.clients| && Active(u.clients[j])
      ensures HasRules(u.clients[j], View(u.fw, u.clients[j].ip))
    {
      var k := if j < i then j else j + 1;
      assert w.clients[k].ip != w.clients[i].ip;
      ViewDeauthenticate(w.fw, w.clients[i].ip, w.clients[k].ip);
    }
  }

  lemma DeauthGood(w: World, i: nat, cfg: Config)
    requires i < |w.clients| && Good(w, cfg)
    ensures Good(Deauth(w, i).0, cfg)
    ensures RulesExact(w) ==> RulesExact(Deauth(w, i).0)
  {
    hide MemoryOk, ListOk, ClientsOk, NoStaleRules, Conserved, Revoke, HasRules, View;
    if w.clients[i].state == Authenticated {
      RevokeGood(w, i, cfg);
      if RulesExact(w) {
        RevokeExact(w, i, cfg);
      }
    }
  }

  // ---- pins -----------------------------------------------------------------------------------

  /** A step that changes reference counts, pins and frees only. */
  lemma PinsOnlyGood(w: World, u: World, cfg: Config)
    requires Good(w, cfg) && MemoryOk(u)
    requires u == w.(refs := u.refs, dead := u.dead, pins := u.pins, freed := u.freed)
    ensures Good(u, cfg)
  {
    assert ListOk(u, cfg) && ClientsOk(u, cfg);
    assert NoStaleRules(u) && Conserved(u);
  }

  lemma PinMemory(w: World, id: nat)
    requires MemoryOk(w) && id in w.refs
    ensures MemoryOk(Pin(w, id))
  {
  }

  lemma PinGood(w: World, id: nat, cfg: Config)
    requires Good(w, cfg) && id in w.refs
    ensures Good(Pin(w, id), cfg)
  {
    PinMemory(w, id);
    PinsOnlyGood(w, Pin(w, id), cfg);
  }

  lemma UnpinMemory(w: World, id: nat)
    requires MemoryOk(w) && id in w.pins && id in w.refs
    ensures MemoryOk(Unpin(w, id))
  {
    assert w.refs[id] == w.pins[id] > 0;
    if id in w.dead && w.refs[id] == 1 {
      LastUnpinMemory(w, id);
    } else {
      OtherUnpinMemory(w, id);
    }
  }

  lemma OtherUnpinMemory(w: World, id: nat)
    requires MemoryOk(w) && id in w.pins && id in w.refs && w.refs[id] > 0
    requires !(id in w.dead && w.refs[id] == 1)
    ensures MemoryOk(Unpin(w, id))
  {
  }

  lemma LastUnpinMemory(w: World, id: nat)
    requires MemoryOk(w) && id in w.pins && id in w.dead && id in w.refs && w.refs[id] == 1
    ensures MemoryOk(Unpin(w, id))
  {
    var u := Unpin(w, id);
    assert u.clients == w.clients && u.nextId == w.nextId;
    assert id !in w.freed && u.freed[id] == 1;
  }

  lemma UnpinGood(w: World, id: nat, cfg: Config)
    requires Good(w, cfg) && id in w.pins && id in w.refs
    ensures Good(Unpin(w, id), cfg)
  {
    UnpinMemory(w, id);
    PinsOnlyGood(w, Unpin(w, id), cfg);
  }

  // ---- addition -------------------------------------------------------------------------------

  lemma ListedAppend(cs: seq<ClientInfo>, c: ClientInfo)
    ensures forall id :: Listed(cs + [c], id) <==> Listed(cs, id) || id == c.id
  {
    forall id | Listed(cs, id)
      ensures Listed(cs + [c], id)
    {
      var i :| 0 <= i < |cs| && cs[i].id == id;
      assert (cs + [c])[i].id == id;
    }
    assert (cs + [c])[|cs|] == c;
    forall id | Listed(cs + [c], id)
      ensures Listed(cs, id) || id == c.id
    {
      var i :| 0 <= i < |cs| + 1 && (cs + [c])[i].id == id;
      if i < |cs| {
        assert cs[i].id == id;
      }
    }
  }

  lemma AppendMemory(w: World, c: ClientInfo)
    requires MemoryOk(w) && c.id == w.nextId >= 1
    ensures MemoryOk(Append(w, c))
  {
    ListedAppend(w.clients, c);
    var u := Append(w, c);
    assert c.id !in w.refs && c.id !in w.freed && c.id !in w.pins;
    assert w.pins[c.id] == 0;
  }

  lemma AppendList(w: World, c: ClientInfo, cfg: Config)
    requires ListOk(w, cfg) && c.id == w.nextId && w.count < cfg.maxclients
    requires FirstIndex(w.clients, ByMacIp(c.mac, c.ip)) == |w.clients|
    ensures ListOk(Append(w, c), cfg)
  {
    forall i | 0 <= i < |w.clients|
      ensures w.clients[i].ip != c.ip || Lower(w.clients[i].mac) != Lower(c.mac)
    {
      assert !Matches(w.clients[i], ByMacIp(c.mac, c.ip));
    }
  }

  lemma ActiveAddressAppend(cs: seq<ClientInfo>, c: ClientInfo, ip: string)
    ensures ActiveAddress(cs, ip) ==> ActiveAddress(cs + [c], ip)
  {
    if ActiveAddress(cs, ip) {
      var j :| 0 <= j < |cs| && Active(cs[j]) && cs[j].ip == ip;
      assert (cs + [c])[j] == cs[j];
    }
  }

  lemma AppendNoStale(w: World, c: ClientInfo)
    requires NoStaleRules(w)
    ensures NoStaleRules(Append(w, c))
  {
    var u := Append(w, c);
    forall ip: string | !ActiveAddress(u.clients, ip)
      ensures View(u.fw, ip) == EMPTY
    {
      ActiveAddressAppend(w.clients, c, ip);
    }
  }

  lemma AppendConserved(w: World, c: ClientInfo)
    requires Conserved(w) && !Active(c)
    ensures Conserved(Append(w, c))
  {
    CountAppend(w.clients, c);
  }

  lemma AppendGood(w: World, c: ClientInfo, cfg: Config)
    requires Good(w, cfg) && c.id == w.nextId && w.count < cfg.maxclients
    requires ClientOk(c, cfg) && !Active(c)
    requires FirstIndex(w.clients, ByMacIp(c.mac, c.ip)) == |w.clients|
    ensures Good(Append(w, c), cfg)
  {
    AppendMemory(w, c);
    AppendList(w, c, cfg);
    AppendNoStale(w, c);
    AppendConserved(w, c);
    assert ClientsOk(Append(w, c), cfg);
  }

  lemma FindOrAppendGood(w: World, req: AddRequest, cfg: Config)
    requires Good(w, cfg)
    ensures var (u, i) := FindOrAppend(w, req, cfg);
            && Good(u, cfg)
            && (i.Some? ==> i.value < |u.clients| && Matches(u.clients[i.value], ByMacIp(req.mac, req.ip)))
            && (RulesExact(w) ==> RulesExact(u))
  {
    hide MemoryOk, ListOk, NoStaleRules, Conserved;
    var (u, i) := FindOrAppend(w, req, cfg);
    if u != w {
      var c := u.clients[|w.clients|];
      AppendGood(w, c, cfg);
    }
  }

  lemma PinAtGood(w: World, i: nat, cfg: Config)
    requires Good(w, cfg) && i < |w.clients|
    ensures Good(PinAt(w, i), cfg)
  {
    assert Listed(w.clients, w.clients[i].id);
    PinGood(w, w.clients[i].id, cfg);
  }
}
