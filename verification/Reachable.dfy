/** Every operation keeps the invariants, and so does every run. */
module Reachable {
  import opened Basics
  import opened Clients
  import opened Firewall
  import opened RateLimit
  import opened CounterRefresh
  import opened Session
  import opened Invariants

  // ---- refresh --------------------------------------------------------------------------------

  lemma RefreshWorldKeeps(w: World, snap: Snapshot, cfg: Config)
    requires ClientsOk(w, cfg)
    ensures var u := RefreshWorld(w, snap).0;
            && u == w.(clients := u.clients) && ClientsOk(u, cfg)
            && |u.clients| == |w.clients|
            && forall j :: 0 <= j < |w.clients| ==> u.clients[j] == w.clients[j].(counters := u.clients[j].counters)
  {
    RefreshOk(w.clients, snap);
  }

  lemma RefreshWorldGood(w: World, snap: Snapshot, cfg: Config)
    requires Good(w, cfg)
    ensures Good(RefreshWorld(w, snap).0, cfg)
  {
    hide MemoryOk, ListOk;
    var u := RefreshWorld(w, snap).0;
    RefreshWorldKeeps(w, snap, cfg);
    if w.clients == [] {
      assert u.clients == w.clients;
      assert u == w;
    } else {
      assert Touches(w, u, 0);
      TouchKeeps(w, u, 0, cfg);
      CountSame(w.clients, u.clients);
      SameStatesNoStale(w, u);
    }
  }

  lemma SameStatesNoStale(w: World, u: World)
    requires NoStaleRules(w) && u.fw == w.fw && |u.clients| == |w.clients|
    requires forall j :: 0 <= j < |w.clients| ==>
               u.clients[j].ip == w.clients[j].ip && u.clients[j].state == w.clients[j].state
    ensures NoStaleRules(u)
  {
    forall ip: string | !ActiveAddress(u.clients, ip)
      ensures View(u.fw, ip) == EMPTY
    {
      SameActiveAddress(w.clients, u.clients, ip);
    }
  }

  lemma RefreshWorldExact(w: World, snap: Snapshot, cfg: Config)
    requires ClientsOk(w, cfg) && RulesExact(w)
    ensures RulesExact(RefreshWorld(w, snap).0)
  {
    RefreshWorldKeeps(w, snap, cfg);
  }

  // ---- authentication -------------------------------------------------------------------------

  lemma GrantedOk(c: ClientInfo, explicitEnd: bool, inp: ChangeInput, cfg: Config)
    requires ClientOk(c, cfg) && c.state == Preauthenticated
    ensures var d := Granted(c, explicitEnd, inp, cfg);
            && SameIdentity(c, d) && d.state == c.state && ClientOk(d, cfg) && d.rateExceeded == 0
            && d.incPacketLimit == d.downloadBucketSize == d.outPacketLimit == d.uploadBucketSize == 0
  {
  }

  lemma AuthenticateView(fw: Chains, ip: string, mac: string)
    ensures forall other: string :: other != ip ==> View(Authenticate(fw, ip, mac), other) == View(fw, other)
    ensures View(Authenticate(fw, ip, mac), ip) == Authenticate(View(fw, ip), ip, mac)
  {
    forall other: string
      ensures other != ip ==> View(Authenticate(fw, ip, mac), other) == View(fw, other)
    {
      ViewAuthenticate(fw, ip, mac, other);
    }
    ViewAuthenticate(fw, ip, mac, ip);
  }

  lemma DeauthenticateView(fw: Chains, ip: string)
    ensures forall other: string :: other != ip ==> View(Deauthenticate(fw, ip), other) == View(fw, other)
    ensures View(Deauthenticate(fw, ip), ip) == EMPTY
  {
    forall other: string
      ensures other != ip ==> View(Deauthenticate(fw, ip), other) == View(fw, other)
    {
      ViewDeauthenticate(fw, ip, other);
    }
    ViewDeauthenticate(fw, ip, ip);
  }

  /** What admitting the client at i leaves: itself unlimited and still preauthenticated, the others with
      other counters at most, and its rules installed. */
  ghost predicate AdmittedFrom(w: World, u: World, i: nat, cfg: Config)
    requires i < |w.clients|
  {
    var c := w.clients[i];
    && Touches(w, u, i) && ClientsOk(u, cfg)
    && u.fw == Authenticate(w.fw, c.ip, c.mac)
    && SameIdentity(c, u.clients[i])
    && u.clients[i].state == Preauthenticated
    && (forall j :: 0 <= j < |w.clients| && j != i ==> u.clients[j] == w.clients[j].(counters := u.clients[j].counters))
  }

  lemma AdmitKeeps(w: World, i: nat, inp: ChangeInput, cfg: Config)
    requires i < |w.clients| && ClientsOk(w, cfg) && w.clients[i].state == Preauthenticated
    ensures AdmittedFrom(w, Admit(w, i, inp, cfg).0, i, cfg)
  {
    var c := w.clients[i];
    var asked := c.(sessionEndExplicit := false);
    GrantedOk(asked, c.sessionEndExplicit, inp, cfg);
    var granted := Granted(asked, c.sessionEndExplicit, inp, cfg);
    RefreshWorldKeeps(Put(w, i, Cell(granted, Authenticate(w.fw, c.ip, c.mac))), inp.snap, cfg);
  }

  lemma WithdrawShape(w: World, u: World, i: nat, cfg: Config)
    requires i < |w.clients| && AdmittedFrom(w, u, i, cfg)
    ensures var v := Withdraw(u, i);
            && Touches(w, v, i) && ClientsOk(v, cfg) && v.clients == u.clients
            && View(v.fw, w.clients[i].ip) == EMPTY
            && forall other: string :: other != w.clients[i].ip ==> View(v.fw, other) == View(w.fw, other)
  {
    AuthenticateView(w.fw, w.clients[i].ip, w.clients[i].mac);
    DeauthenticateView(u.fw, w.clients[i].ip);
  }

  lemma WithdrawSound(w: World, u: World, i: nat, cfg: Config)
    requires i < |w.clients| && Sound(w, cfg) && AdmittedFrom(w, u, i, cfg)
    ensures Sound(Withdraw(u, i), cfg)
  {
    WithdrawShape(w, u, i, cfg);
    TouchKeeps(w, Withdraw(u, i), i, cfg);
    NoStaleAt(w, Withdraw(u, i), i);
  }

  lemma WithdrawExact(w: World, u: World, i: nat, cfg: Config)
    requires i < |w.clients| && AdmittedFrom(w, u, i, cfg)
    requires RulesExact(w) && Alone(w.clients, i)
    ensures RulesExact(Withdraw(u, i))
  {
    WithdrawShape(w, u, i, cfg);
    OthersExact(w, Withdraw(u, i), i);
  }

  /** A firewall change at the address of one client leaves the rules of the others exact, when no other active
      client has that address. */
  lemma OthersExact(w: World, v: World, i: nat)
    requires i < |w.clients| && |v.clients| == |w.clients|
    requires RulesExact(w) && Alone(w.clients, i)
    requires forall j :: 0 <= j < |w.clients| && j != i ==>
               v.clients[j] == w.clients[j].(counters := v.clients[j].counters)
    requires forall other: string :: other != w.clients[i].ip ==> View(v.fw, other) == View(w.fw, other)
    requires Active(v.clients[i]) ==> HasRules(v.clients[i], View(v.fw, v.clients[i].ip))
    ensures RulesExact(v)
  {
    forall j | 0 <= j < |v.clients| && j != i && Active(v.clients[j])
      ensures HasRules(v.clients[j], View(v.fw, v.clients[j].ip))
    {
      assert HasRules(w.clients[j], View(w.fw, w.clients[j].ip));
      assert w.clients[j].ip != w.clients[i].ip;
    }
  }

  lemma FreshRules(fw: Chains, c: ClientInfo)
    requires View(fw, c.ip) == EMPTY
    requires c.incPacketLimit == c.downloadBucketSize == c.outPacketLimit == c.uploadBucketSize == 0
    ensures HasRules(c, View(Authenticate(fw, c.ip, c.mac), c.ip))
  {
    AuthenticateView(fw, c.ip, c.mac);
  }

  lemma CompleteShape(w: World, u: World, i: nat, cfg: Config)
    requires i < |w.clients| && AdmittedFrom(w, u, i, cfg)
    ensures var v := Complete(u, i, cfg);
            && Touches(w, v, i) && ClientsOk(v, cfg) && v.clients[i].state == Authenticated
            && ActiveAddress(v.clients, w.clients[i].ip)
            && (forall j :: 0 <= j < |u.clients| && j != i ==> v.clients[j] == u.clients[j])
            && (forall other: string :: other != w.clients[i].ip ==> View(v.fw, other) == View(w.fw, other))
            && (HasRules(u.clients[i], View(u.fw, w.clients[i].ip)) ==>
                HasRules(v.clients[i], View(v.fw, w.clients[i].ip)))
  {
    AuthenticateView(w.fw, w.clients[i].ip, w.clients[i].mac);
    AuthLimitersOk(CellAt(u, i), cfg);
    var v := Complete(u, i, cfg);
    assert Active(v.clients[i]) && v.clients[i].ip == w.clients[i].ip;
  }

  lemma CompleteSound(w: World, u: World, i: nat, cfg: Config)
    requires i < |w.clients| && Sound(w, cfg) && AdmittedFrom(w, u, i, cfg)
    ensures Sound(Complete(u, i, cfg), cfg)
  {
    CompleteShape(w, u, i, cfg);
    TouchKeeps(w, Complete(u, i, cfg), i, cfg);
    NoStaleAt(w, Complete(u, i, cfg), i);
  }

  lemma CompleteExact(w: World, u: World, i: nat, cfg: Config)
    requires i < |w.clients| && AdmittedFrom(w, u, i, cfg) && w.clients[i].state == Preauthenticated
    requires NoStaleRules(w) && RulesExact(w) && Alone(w.clients, i)
    ensures RulesExact(Complete(u, i, cfg))
  {
    CompleteShape(w, u, i, cfg);
    assert !ActiveAddress(w.clients, w.clients[i].ip);
    FreshRules(w.fw, u.clients[i]);
    OthersExact(w, Complete(u, i, cfg), i);
  }

  lemma RefuseGood(w: World, i: nat, cfg: Config)
    requires i < |w.clients| && Good(w, cfg)
    ensures Good(Put(w, i, Cell(w.clients[i].(sessionEndExplicit := false), w.fw)), cfg)
  {
    PutKeepsGood(w, i, Cell(w.clients[i].(sessionEndExplicit := false), w.fw), cfg);
  }

  lemma AuthorizeSound(w: World, i: nat, inp: ChangeInput, cfg: Config)
    requires i < |w.clients| && Good(w, cfg) && w.clients[i].state == Preauthenticated
    ensures Sound(Authorize(w, i, inp, cfg).0, cfg)
  {
    if inp.binauth != 0 {
      RefuseGood(w, i, cfg);
    } else {
      var (u, ok) := Admit(w, i, inp, cfg);
      AdmitKeeps(w, i, inp, cfg);
      if ok {
        CompleteSound(w, u, i, cfg);
      } else {
        WithdrawSound(w, u, i, cfg);
      }
    }
  }

  /** An authentication makes exactly one more client active, or none. */
  ghost predicate Activates(w: World, u: World, more: nat) {
    && u == w.(clients := u.clients, fw := u.fw) && |u.clients| == |w.clients|
    && ActiveCount(u.clients) == ActiveCount(w.clients) + more
  }

  lemma RefuseCount(w: World, i: nat)
    requires i < |w.clients|
    ensures Activates(w, Put(w, i, Cell(w.clients[i].(sessionEndExplicit := false), w.fw)), 0)
  {
    CountChange(w.clients, Put(w, i, Cell(w.clients[i].(sessionEndExplicit := false), w.fw)).clients, i);
  }

  lemma CompleteCount(w: World, u: World, i: nat, cfg: Config)
    requires i < |w.clients| && AdmittedFrom(w, u, i, cfg) && w.clients[i].state == Preauthenticated
    ensures Activates(w, Complete(u, i, cfg), 1)
  {
    CompleteShape(w, u, i, cfg);
    CountChange(w.clients, Complete(u, i, cfg).clients, i);
  }

  lemma WithdrawCount(w: World, u: World, i: nat, cfg: Config)
    requires i < |w.clients| && AdmittedFrom(w, u, i, cfg) && w.clients[i].state == Preauthenticated
    ensures Activates(w, Withdraw(u, i), 0)
  {
    WithdrawShape(w, u, i, cfg);
    CountChange(w.clients, Withdraw(u, i).clients, i);
  }

  lemma AuthorizeCount(w: World, i: nat, inp: ChangeInput, cfg: Config)
    requires i < |w.clients| && ClientsOk(w, cfg) && w.clients[i].state == Preauthenticated
    ensures var (u, rc) := Authorize(w, i, inp, cfg); Activates(w, u, if rc == 0 then 1 else 0)
  {
    if inp.binauth != 0 {
      RefuseCount(w, i);
    } else {
      var (u, ok) := Admit(w, i, inp, cfg);
      AdmitKeeps(w, i, inp, cfg);
      if ok {
        CompleteCount(w, u, i, cfg);
      } else {
        WithdrawCount(w, u, i, cfg);
      }
    }
  }

  lemma AuthorizeExact(w: World, i: nat, inp: ChangeInput, cfg: Config)
    requires i < |w.clients| && ClientsOk(w, cfg) && w.clients[i].state == Preauthenticated
    requires NoStaleRules(w) && RulesExact(w) && (inp.binauth == 0 ==> Alone(w.clients, i))
    ensures RulesExact(Authorize(w, i, inp, cfg).0)
  {
    if inp.binauth == 0 {
      var (u, ok) := Admit(w, i, inp, cfg);
      AdmitKeeps(w, i, inp, cfg);
      if ok {
        CompleteExact(w, u, i, cfg);
      } else {
        WithdrawExact(w, u, i, cfg);
      }
    }
  }

  lemma CountUpSound(u: World, n: nat, cfg: Config)
    requires Sound(u, cfg)
    ensures Sound(u.(authCount := n), cfg)
  {
    var v := u.(authCount := n);
    assert MemoryOk(v) && ListOk(v, cfg);
  }

  lemma CountUpConserved(w: World, u: World)
    requires Conserved(w) && Activates(w, u, 1)
    ensures Conserved(u.(authCount := (u.authCount + 1) % TWO_TO_THE_32))
  {
  }

  lemma AuthClientIs(w: World, id: nat, inp: ChangeInput, cfg: Config)
    ensures var i := FirstIndex(w.clients, ById(id));
            var v := AuthClient(w, id, inp, cfg).0;
            if i < |w.clients| && w.clients[i].state == Preauthenticated then
              var (u, rc) := Authorize(w, i, inp, cfg);
              v == if rc == 0 then u.(authCount := (u.authCount + 1) % TWO_TO_THE_32) else u
            else v == w
  {
  }

  lemma AuthClientGood(w: World, id: nat, inp: ChangeInput, cfg: Config)
    requires Good(w, cfg)
    ensures Good(AuthClient(w, id, inp, cfg).0, cfg)
  {
    hide MemoryOk, ListOk, ClientsOk, NoStaleRules, Authorize, AuthClient;
    var i := FirstIndex(w.clients, ById(id));
    AuthClientIs(w, id, inp, cfg);
    if i < |w.clients| && w.clients[i].state == Preauthenticated {
      AuthorizeSound(w, i, inp, cfg);
      AuthorizeCount(w, i, inp, cfg);
      var (u, rc) := Authorize(w, i, inp, cfg);
      if rc == 0 {
        CountUpSound(u, (u.authCount + 1) % TWO_TO_THE_32, cfg);
        CountUpConserved(w, u);
      } else {
        assert Conserved(u);
      }
    }
  }

  /** An admission finds no other active client at the client's address. */
  predicate AdmittedAlone(w: World, id: nat, inp: ChangeInput) {
    var i := FirstIndex(w.clients, ById(id));
    i < |w.clients| && w.clients[i].state == Preauthenticated && inp.binauth == 0 ==> Alone(w.clients, i)
  }

  /** Admitting a client where another one is active breaks the exact rules: either the address gets a second
      set of rules, or, when the counters cannot be read, the other client loses its own. */
  lemma SharedAdmissionBreaks(w: World, i: nat, inp: ChangeInput, cfg: Config)
    requires i < |w.clients| && ClientsOk(w, cfg) && w.clients[i].state == Preauthenticated
    requires inp.binauth == 0 && RulesExact(w) && !Alone(w.clients, i)
    ensures !RulesExact(Authorize(w, i, inp, cfg).0)
  {
    hide Complete, Withdraw, Admit;
    var j :| 0 <= j < |w.clients| && j != i && Active(w.clients[j]) && w.clients[j].ip == w.clients[i].ip;
    var ip := w.clients[i].ip;
    var (u, ok) := Admit(w, i, inp, cfg);
    AdmitKeeps(w, i, inp, cfg);
    assert HasRules(w.clients[j], View(w.fw, ip));
    AuthenticateView(w.fw, ip, w.clients[i].mac);
    if ok {
      CompleteShape(w, u, i, cfg);
      CompleteOutgoing(u, i, cfg);
      var v := Complete(u, i, cfg);
      assert Active(v.clients[j]) && v.clients[j].ip == ip;
      assert |View(v.fw, ip).outgoing| == 2;
    } else {
      WithdrawShape(w, u, i, cfg);
      var v := Withdraw(u, i);
      assert Active(v.clients[j]) && v.clients[j].ip == ip;
      assert |View(v.fw, ip).outgoing| == 0;
    }
  }

  lemma CompleteOutgoing(u: World, i: nat, cfg: Config)
    requires i < |u.clients|
    ensures Complete(u, i, cfg).fw.outgoing == u.fw.outgoing
  {
    hide DownloadLimit, UploadLimit;
  }

  /** Authenticating keeps the rules exact if and only if no other active client has the address, or BinAuth refuses. */
  lemma AuthClientExact(w: World, id: nat, inp: ChangeInput, cfg: Config)
    requires Good(w, cfg) && RulesExact(w)
    ensures RulesExact(AuthClient(w, id, inp, cfg).0) <==> AdmittedAlone(w, id, inp)
  {
    hide MemoryOk, ListOk, Authorize, AuthClient, Conserved, HasRules, View, Alone;
    var i := FirstIndex(w.clients, ById(id));
    AuthClientIs(w, id, inp, cfg);
    if i < |w.clients| && w.clients[i].state == Preauthenticated {
      if AdmittedAlone(w, id, inp) {
        AuthorizeExact(w, i, inp, cfg);
        assert RulesExact(Authorize(w, i, inp, cfg).0);
      } else {
        SharedAdmissionBreaks(w, i, inp, cfg);
        assert !RulesExact(Authorize(w, i, inp, cfg).0);
      }
    }
  }
}
