/** Shared admissions and what becomes of the clients that were party to one. */
module Parties {
  import opened Basics
  import opened Clients
  import opened Firewall
  import opened CounterRefresh
  import opened Session
  import opened Invariants
  import opened NodeMemory
  import opened PassSteps
  import opened Reachable
  import opened RunSteps
  import opened Runs
  import MacLists

  // ---- parties --------------------------------------------------------------------------------

  /** The other active clients at the address of the client at i. */
  function Sharers(cs: seq<ClientInfo>, i: nat): set<nat>
    requires i < |cs|
  {
    set j | 0 <= j < |cs| && j != i && Active(cs[j]) && cs[j].ip == cs[i].ip :: cs[j].id
  }

  /** Who becomes party to a shared admission: the clients already active at the address, whether the admission goes
      through or is withdrawn; and the one admitted, when it goes through. */
  function AdmissionParties(w: World, id: nat, inp: ChangeInput): set<nat> {
    if !Waiting(w, id) || inp.binauth != 0 then {}
    else
      var sharers := Sharers(w.clients, FirstIndex(w.clients, ById(id)));
      sharers + if sharers != {} && Readable(inp) then {id} else {}
  }

  function NewParties(w: World, op: Op): set<nat> {
    match op
    case AuthOp(id, inp) => AdmissionParties(w, id, inp)
    case ControlAuthOp(id, preset, inp) => AdmissionParties(w, id, inp)
    case _ => {}
  }

  /** The clients that were party to a shared admission at some time in a run. */
  function AllParties(ops: seq<Op>, cfg: Config): set<nat> {
    if ops == [] then {}
    else
      var n := |ops| - 1;
      AllParties(ops[..n], cfg) + NewParties(Run(ops[..n], cfg), ops[n])
  }

  lemma SharersAlone(cs: seq<ClientInfo>, i: nat)
    requires i < |cs|
    ensures Sharers(cs, i) == {} <==> Alone(cs, i)
    ensures forall j :: 0 <= j < |cs| && j != i && Active(cs[j]) && cs[j].ip == cs[i].ip ==> cs[j].id in Sharers(cs, i)
  {
    if Alone(cs, i) {
      assert Sharers(cs, i) == {};
    }
    if j :| 0 <= j < |cs| && j != i && Active(cs[j]) && cs[j].ip == cs[i].ip {
      assert cs[j].id in Sharers(cs, i);
    }
  }

  // ---- the invariant --------------------------------------------------------------------------

  /** An active client that is no party is alone at its address and has its six rules; a party that is alone at its
      address has none. Only active clients are parties. */
  ghost predicate ClientDivided(cs: seq<ClientInfo>, i: nat, fw: Chains, parties: set<nat>)
    requires i < |cs|
  {
    var c := cs[i];
    && (c.id in parties ==> Active(c))
    && (Active(c) && c.id !in parties ==> Alone(cs, i) && HasRules(c, View(fw, c.ip)))
    && (c.id in parties && Alone(cs, i) ==> View(fw, c.ip) == EMPTY)
  }

  ghost predicate Divided(w: World, parties: set<nat>) {
    && (forall id :: id in parties ==> id < w.nextId)
    && forall i :: 0 <= i < |w.clients| ==> ClientDivided(w.clients, i, w.fw, parties)
  }

  /** A step that changes one client, keeps it active or inactive, and leaves the other addresses alone. */
  ghost predicate Local(w: World, u: World, i: nat)
    requires i < |w.clients|
  {
    && SameIdentities(w.clients, u.clients) && u.nextId == w.nextId
    && (forall j :: 0 <= j < |w.clients| && j != i ==> u.clients[j] == w.clients[j].(counters := u.clients[j].counters))
    && (Active(u.clients[i]) <==> Active(w.clients[i]))
    && FirewallLocal(w.fw, u.fw, w.clients[i].ip) && (Active(w.clients[i]) || u.fw == w.fw)
    && (Active(w.clients[i]) && HasRules(w.clients[i], View(w.fw, w.clients[i].ip)) ==>
          HasRules(u.clients[i], View(u.fw, w.clients[i].ip)))
  }

  lemma AloneSame(cs: seq<ClientInfo>, ds: seq<ClientInfo>, i: nat)
    requires i < |cs| && SameIdentities(cs, ds)
    requires forall j :: 0 <= j < |cs| ==> (Active(ds[j]) <==> Active(cs[j]))
    ensures Alone(ds, i) <==> Alone(cs, i)
  {
    assert forall j :: 0 <= j < |cs| ==> SameIdentity(cs[j], ds[j]);
  }

  lemma LocalDivided(w: World, u: World, i: nat, parties: set<nat>)
    requires i < |w.clients| && Divided(w, parties) && Local(w, u, i)
    ensures Divided(u, parties)
  {
    hide HasRules, View;
    forall j | 0 <= j < |u.clients|
      ensures ClientDivided(u.clients, j, u.fw, parties)
    {
      AloneSame(w.clients, u.clients, j);
      assert SameIdentity(w.clients[j], u.clients[j]) && SameIdentity(w.clients[i], u.clients[i]);
      assert ClientDivided(w.clients, j, w.fw, parties);
      if j != i && Active(w.clients[j]) {
        SameRules(w.clients[j], u.clients[j], View(w.fw, w.clients[j].ip));
      }
    }
  }

  lemma SameRules(c: ClientInfo, d: ClientInfo, v: Chains)
    requires d == c.(counters := d.counters)
    ensures HasRules(c, v) <==> HasRules(d, v)
  {
  }

  /** The same clients and rules, with other counters at most. */
  lemma RecountedDivided(w: World, u: World, parties: set<nat>)
    requires Divided(w, parties) && u.fw == w.fw && u.nextId == w.nextId && |u.clients| == |w.clients|
    requires forall j :: 0 <= j < |w.clients| ==> u.clients[j] == w.clients[j].(counters := u.clients[j].counters)
    ensures Divided(u, parties)
  {
    if w.clients == [] {
      assert u.clients == [];
    } else {
      SameRules(w.clients[0], u.clients[0], View(w.fw, w.clients[0].ip));
      LocalDivided(w, u, 0, parties);
    }
  }

  // ---- removals -------------------------------------------------------------------------------

  lemma AloneRemoved(cs: seq<ClientInfo>, i: nat, j: nat)
    requires i < |cs| && j < |cs| && j != i
    ensures var k := if j < i then j else j - 1;
            k < |Removed(cs, i)| && Removed(cs, i)[k] == cs[j]
            && (Alone(cs, j) ==> Alone(Removed(cs, i), k))
            && (!Alone(cs, j) && (!Active(cs[i]) || cs[i].ip != cs[j].ip) ==> !Alone(Removed(cs, i), k))
  {
    var ds := Removed(cs, i);
    var k := if j < i then j else j - 1;
    if m :| 0 <= m < |cs| && m != j && Active(cs[m]) && cs[m].ip == cs[j].ip
            && (!Active(cs[i]) || cs[i].ip != cs[j].ip) {
      var n := if m < i then m else m - 1;
      assert ds[n] == cs[m] && n != k;
    }
  }

  /** A deauthentication strips an address: a party left alone there has nothing. */
  lemma RevokeDivided(w: World, i: nat, parties: set<nat>)
    requires i < |w.clients| && Divided(w, parties) && Active(w.clients[i])
    ensures Divided(Revoke(w, i), parties)
  {
    hide HasRules, View, Alone, Deauthenticate;
    var u := Revoke(w, i);
    assert u.clients == Removed(w.clients, i) && u.fw == Deauthenticate(w.fw, w.clients[i].ip);
    DeauthenticateView(w.fw, w.clients[i].ip);
    forall k | 0 <= k < |u.clients|
      ensures ClientDivided(u.clients, k, u.fw, parties)
    {
      var j := if k < i then k else k + 1;
      AloneRemoved(w.clients, i, j);
      assert ClientDivided(w.clients, j, w.fw, parties);
      if w.clients[j].ip == w.clients[i].ip && Active(w.clients[j]) {
        NotAlone(w.clients, i, j);
      }
    }
  }

  lemma NotAlone(cs: seq<ClientInfo>, i: nat, j: nat)
    requires i < |cs| && j < |cs| && i != j && Active(cs[i]) && cs[i].ip == cs[j].ip
    ensures !Alone(cs, j)
  {
  }

  lemma DeauthDivided(w: World, i: nat, parties: set<nat>)
    requires i < |w.clients| && Divided(w, parties)
    ensures Divided(Deauth(w, i).0, parties)
  {
    hide Divided, Revoke;
    if w.clients[i].state == Authenticated {
      RevokeDivided(w, i, parties);
    }
  }

  lemma DeleteInactiveDivided(w: World, i: nat, parties: set<nat>)
    requires i < |w.clients| && Divided(w, parties) && !Active(w.clients[i])
    ensures Divided(DeleteAt(w, i), parties)
  {
    hide HasRules, View, Alone;
    var u := DeleteAt(w, i);
    assert u.clients == Removed(w.clients, i) && u.fw == w.fw && u.nextId == w.nextId;
    forall k | 0 <= k < |u.clients|
      ensures ClientDivided(u.clients, k, u.fw, parties)
    {
      var j := if k < i then k else k + 1;
      AloneRemoved(w.clients, i, j);
      assert ClientDivided(w.clients, j, w.fw, parties);
    }
  }

  // ---- the pass -------------------------------------------------------------------------------

  lemma RefreshDivided(w: World, snap: Snapshot, parties: set<nat>, cfg: Config)
    requires Good(w, cfg) && Divided(w, parties)
    ensures Divided(RefreshWorld(w, snap).0, parties)
  {
    hide MemoryOk, ListOk, NoStaleRules, Conserved, Refresh, Divided;
    RefreshWorldKeeps(w, snap, cfg);
    RecountedDivided(w, RefreshWorld(w, snap).0, parties);
  }

  lemma BlockDivided(w: World, i: nat, inp: ChangeInput, parties: set<nat>, cfg: Config)
    requires i < |w.clients| && ClientsOk(w, cfg) && Divided(w, parties) && Active(w.clients[i])
    ensures Divided(Block(w, i, inp, cfg).0, parties)
  {
    hide ClientsOk, Divided, HasRules, View, Block;
    BlockFrom(w, i, inp, cfg);
    LocalDivided(w, Block(w, i, inp, cfg).0, i, parties);
  }

  lemma PutDivided(w: World, i: nat, c: ClientInfo, parties: set<nat>)
    requires i < |w.clients| && Divided(w, parties) && SameIdentity(w.clients[i], c) && c.state == w.clients[i].state
    requires Active(c) && HasRules(w.clients[i], View(w.fw, c.ip)) ==> HasRules(c, View(w.fw, c.ip))
    ensures Divided(Put(w, i, Cell(c, w.fw)), parties)
  {
    hide Divided, HasRules, View;
    LocalDivided(w, Put(w, i, Cell(c, w.fw)), i, parties);
  }

  lemma ThrottleDivided(w: World, i: nat, dir: Direction, inp: ChangeInput, parties: set<nat>, cfg: Config)
    requires i < |w.clients| && Good(w, cfg) && Divided(w, parties)
    ensures Divided(Throttle(w, i, dir, inp, cfg), parties)
  {
    hide MemoryOk, ListOk, NoStaleRules, Conserved, Divided, Block, View;
    var c := WithRate(w.clients[i], dir, ThrottleRate(cfg, dir));
    if ThrottleDue(w.clients[i], dir, cfg) {
      PutDivided(w, i, c, parties);
      if w.clients[i].state == Authenticated {
        WithRateGood(w, i, dir, ThrottleRate(cfg, dir), cfg);
        BlockDivided(Put(w, i, Cell(c, w.fw)), i, inp, parties, cfg);
      }
    }
  }

  lemma CheckDivided(w: World, i: nat, now: int, parties: set<nat>, cfg: Config)
    requires i < |w.clients| && Good(w, cfg) && Divided(w, parties) && w.clients[i].state != Preauthenticated
    ensures Divided(Put(w, i, CheckRates(CellAt(w, i), now, cfg)), parties)
  {
    hide MemoryOk, ListOk, NoStaleRules, Conserved, Divided, CheckRates, HasRules, View;
    CheckRatesOk(CellAt(w, i), now, cfg);
    if w.clients[i].state == Trusted {
      TrustedRates(CellAt(w, i), now, cfg);
    }
    LocalDivided(w, Put(w, i, CheckRates(CellAt(w, i), now, cfg)), i, parties);
  }

  lemma LateTurnDivided(w: World, i: nat, c: ClientInfo, now: int, parties: set<nat>, cfg: Config, env: Environment)
    requires i < |w.clients| && Good(w, cfg) && Divided(w, parties)
    ensures Divided(LateTurn(w, i, c, now, cfg, env), parties)
  {
    hide Good, Divided, Throttle, Deauth, CheckRates;
    DeauthDivided(w, i, parties);
    var inp := env(c.id, Upload);
    var v := Throttle(w, i, Upload, inp, cfg);
    ThrottleGood(w, i, Upload, inp, cfg);
    ThrottleDivided(w, i, Upload, inp, parties, cfg);
    DeauthDivided(v, i, parties);
    if v.clients[i].state != Preauthenticated {
      CheckDivided(v, i, now, parties, cfg);
    }
  }

  lemma TurnDivided(w: World, i: nat, now: int, parties: set<nat>, cfg: Config, env: Environment)
    requires i < |w.clients| && Good(w, cfg) && Divided(w, parties)
    ensures Divided(PassTurn(w, i, now, cfg, env), parties)
  {
    hide Good, Divided, Throttle, Deauth, LateTurn, DeleteAt;
    var c := w.clients[i];
    DeauthDivided(w, i, parties);
    if c.state == Preauthenticated {
      DeleteInactiveDivided(w, i, parties);
    }
    var inp := env(c.id, Download);
    ThrottleGood(w, i, Download, inp, cfg);
    ThrottleDivided(w, i, Download, inp, parties, cfg);
    LateTurnDivided(Throttle(w, i, Download, inp, cfg), i, c, now, parties, cfg, env);
  }

  lemma {:induction false} WalkDivided(w: World, ids: seq<nat>, now: int, parties: set<nat>, cfg: Config,
                                       env: Environment)
    requires Good(w, cfg) && Divided(w, parties)
    ensures Divided(PassWalk(w, ids, now, cfg, env), parties)
    decreases |ids|
  {
    hide Good, Divided, PassTurn;
    if ids != [] {
      var i := FirstIndex(w.clients, ById(ids[0]));
      if i < |w.clients| {
        PassTurnGood(w, i, now, cfg, env);
        TurnDivided(w, i, now, parties, cfg, env);
      }
      WalkDivided(PassClient(w, ids[0], now, cfg, env), ids[1..], now, parties, cfg, env);
    }
  }

  lemma PassDivided(w: World, now: int, snap: Snapshot, parties: set<nat>, cfg: Config, env: Environment)
    requires Good(w, cfg) && Divided(w, parties)
    ensures Divided(Pass(w, now, snap, cfg, env), parties)
  {
    hide Good, Divided, PassWalk, RefreshWorld;
    var u := RefreshWorld(w, snap).0;
    RefreshWorldGood(w, snap, cfg);
    RefreshDivided(w, snap, parties, cfg);
    WalkDivided(u, Ids(u.clients), now, parties, cfg, env);
  }

  lemma {:induction false} DeauthIdsDivided(w: World, ids: seq<nat>, parties: set<nat>)
    requires Divided(w, parties)
    ensures Divided(DeauthIds(w, ids), parties)
    decreases |ids|
  {
    hide Divided, Deauth;
    if ids != [] {
      var i := FirstIndex(w.clients, ById(ids[0]));
      if i < |w.clients| {
        DeauthDivided(w, i, parties);
      }
      DeauthIdsDivided(DeauthClient(w, ids[0]).0, ids[1..], parties);
    }
  }

  // ---- admissions -----------------------------------------------------------------------------

  /** Where an admission goes through. */
  lemma CompleteDivided(w: World, u: World, i: nat, parties: set<nat>, cfg: Config)
    requires i < |w.clients| && Good(w, cfg) && Divided(w, parties) && AdmittedFrom(w, u, i, cfg)
    requires w.clients[i].state == Preauthenticated
    ensures var sharers := Sharers(w.clients, i);
            Divided(Complete(u, i, cfg), parties + sharers + if sharers != {} then {w.clients[i].id} else {})
  {
    hide MemoryOk, ClientsOk, Conserved, HasRules, View, Complete, Alone, Sharers;
    var c := w.clients[i];
    var v := Complete(u, i, cfg);
    var sharers := Sharers(w.clients, i);
    var all := parties + sharers + if sharers != {} then {c.id} else {};
    CompleteShape(w, u, i, cfg);
    SharersAlone(w.clients, i);
    IdsBelow(w, i, cfg);
    assert ClientDivided(w.clients, i, w.fw, parties);
    forall j | 0 <= j < |v.clients|
      ensures ClientDivided(v.clients, j, v.fw, all)
    {
      assert SameIdentity(w.clients[j], v.clients[j]);
      assert ClientDivided(w.clients, j, w.fw, parties);
      AfterAdmission(w.clients, v.clients, i, j);
      SharerIff(w, i, j, cfg);
      if j == i {
        if sharers == {} {
          NobodyActive(w.clients, i);
          Unlimited(u, i, cfg);
          FreshRules(w.fw, u.clients[i]);
        }
      } else if Active(w.clients[j]) {
        SameRules(w.clients[j], v.clients[j], View(w.fw, w.clients[j].ip));
      }
    }
  }

  /** Ids tell clients apart, so the set of ids says of each client whether it is a sharer. */
  lemma SharerIff(w: World, i: nat, j: nat, cfg: Config)
    requires i < |w.clients| && j < |w.clients| && Good(w, cfg)
    ensures var cs := w.clients;
            cs[j].id in Sharers(cs, i) <==> j != i && Active(cs[j]) && cs[j].ip == cs[i].ip
  {
    hide MemoryOk, ClientsOk, NoStaleRules, Conserved;
    var cs := w.clients;
    if cs[j].id in Sharers(cs, i) {
      var k :| 0 <= k < |cs| && k != i && Active(cs[k]) && cs[k].ip == cs[i].ip && cs[k].id == cs[j].id;
      assert k == j;
    }
  }

  lemma IdsBelow(w: World, i: nat, cfg: Config)
    requires i < |w.clients| && Good(w, cfg)
    ensures w.clients[i].id < w.nextId && forall id :: id in Sharers(w.clients, i) ==> id < w.nextId
  {
    hide MemoryOk, ClientsOk, NoStaleRules, Conserved;
  }

  /** A client without a session has no limits. */
  lemma Unlimited(w: World, i: nat, cfg: Config)
    requires i < |w.clients| && ClientsOk(w, cfg) && w.clients[i].state == Preauthenticated
    ensures var c := w.clients[i];
            c.incPacketLimit == c.downloadBucketSize == c.outPacketLimit == c.uploadBucketSize == 0
  {
    assert ClientOk(w.clients[i], cfg);
  }

  lemma NobodyActive(cs: seq<ClientInfo>, i: nat)
    requires i < |cs| && Alone(cs, i) && !Active(cs[i])
    ensures !ActiveAddress(cs, cs[i].ip)
  {
  }

  /** With the client at i active, the others at its address are not alone, and elsewhere nothing changes. */
  lemma AfterAdmission(cs: seq<ClientInfo>, ds: seq<ClientInfo>, i: nat, j: nat)
    requires i < |cs| && j < |cs| && SameIdentities(cs, ds) && !Active(cs[i]) && Active(ds[i])
    requires forall k :: 0 <= k < |cs| && k != i ==> (Active(ds[k]) <==> Active(cs[k]))
    ensures j != i && cs[j].ip == cs[i].ip ==> !Alone(ds, j)
    ensures j == i || cs[j].ip != cs[i].ip ==> (Alone(ds, j) <==> Alone(cs, j))
  {
    assert forall k :: 0 <= k < |cs| ==> SameIdentity(cs[k], ds[k]);
  }

  /** Where an admission is withdrawn: the address is stripped. */
  lemma WithdrawDivided(w: World, u: World, i: nat, parties: set<nat>, cfg: Config)
    requires i < |w.clients| && Good(w, cfg) && Divided(w, parties) && AdmittedFrom(w, u, i, cfg)
    requires w.clients[i].state == Preauthenticated
    ensures Divided(Withdraw(u, i), parties + Sharers(w.clients, i))
  {
    hide MemoryOk, ClientsOk, Conserved, HasRules, View, Withdraw, Alone, Sharers;
    var v := Withdraw(u, i);
    WithdrawShape(w, u, i, cfg);
    SharersAlone(w.clients, i);
    IdsBelow(w, i, cfg);
    forall j | 0 <= j < |v.clients|
      ensures ClientDivided(v.clients, j, v.fw, parties + Sharers(w.clients, i))
    {
      assert SameIdentity(w.clients[j], v.clients[j]);
      assert ClientDivided(w.clients, j, w.fw, parties);
      AloneSame(w.clients, v.clients, j);
      SharerIff(w, i, j, cfg);
      if j != i && Active(w.clients[j]) {
        SameRules(w.clients[j], v.clients[j], View(w.fw, w.clients[j].ip));
      }
    }
  }

  lemma AuthorizeDivided(w: World, i: nat, inp: ChangeInput, parties: set<nat>, cfg: Config)
    requires i < |w.clients| && Good(w, cfg) && Divided(w, parties) && w.clients[i].state == Preauthenticated
    ensures var sharers := Sharers(w.clients, i);
            Divided(Authorize(w, i, inp, cfg).0,
                    parties + if inp.binauth != 0 then {}
                              else sharers + if sharers != {} && Readable(inp) then {w.clients[i].id} else {})
  {
    hide MemoryOk, ListOk, NoStaleRules, Conserved, HasRules, Complete, Withdraw, Admit, Divided, Sharers;
    if inp.binauth != 0 {
      PutDivided(w, i, w.clients[i].(sessionEndExplicit := false), parties);
      assert parties + {} == parties;
    } else {
      var (u, ok) := Admit(w, i, inp, cfg);
      AdmitKeeps(w, i, inp, cfg);
      AdmitSucceeds(w, i, inp, cfg);
      var sharers := Sharers(w.clients, i);
      var self := if sharers != {} && Readable(inp) then {w.clients[i].id} else {};
      if ok {
        CompleteDivided(w, u, i, parties, cfg);
        assert parties + sharers + self == parties + (sharers + self);
      } else {
        WithdrawDivided(w, u, i, parties, cfg);
        assert parties + (sharers + {}) == parties + sharers;
      }
    }
  }

  lemma AdmitSucceeds(w: World, i: nat, inp: ChangeInput, cfg: Config)
    requires i < |w.clients| && inp.binauth == 0
    ensures Admit(w, i, inp, cfg).1 <==> Readable(inp)
  {
    hide ApplyLines, Granted;
  }

  lemma CountedDivided(u: World, n: nat, parties: set<nat>)
    requires Divided(u, parties)
    ensures Divided(u.(authCount := n), parties)
  {
  }

  lemma AuthClientDivided(w: World, id: nat, inp: ChangeInput, parties: set<nat>, cfg: Config)
    requires Good(w, cfg) && Divided(w, parties)
    ensures Divided(AuthClient(w, id, inp, cfg).0, parties + AdmissionParties(w, id, inp))
  {
    hide Good, Divided, Authorize, AuthClient, Sharers;
    var i := FirstIndex(w.clients, ById(id));
    AuthClientIs(w, id, inp, cfg);
    if Waiting(w, id) {
      AuthorizeDivided(w, i, inp, parties, cfg);
      var u := Authorize(w, i, inp, cfg).0;
      CountedDivided(u, (u.authCount + 1) % TWO_TO_THE_32, parties + AdmissionParties(w, id, inp));
    } else {
      assert parties + {} == parties;
    }
  }

  lemma ControlAuthDivided(w: World, id: nat, p: Preset, inp: ChangeInput, parties: set<nat>, cfg: Config)
    requires Good(w, cfg) && Divided(w, parties)
    ensures Divided(ControlAuth(w, id, p, inp, cfg), parties + AdmissionParties(w, id, inp))
  {
    hide Good, Divided, AuthClient, Sharers, HasRules, View;
    if Waiting(w, id) {
      var i := FirstIndex(w.clients, ById(id));
      var v := Put(w, i, Cell(WithPreset(w.clients[i], p), w.fw));
      PutDivided(w, i, WithPreset(w.clients[i], p), parties);
      PreparedGood(w, id, p, inp, cfg);
      FirstIndexSame(w.clients, v.clients, ById(id));
      SharersSame(w.clients, v.clients, i);
      AuthClientDivided(v, id, inp, parties, cfg);
    } else {
      assert parties + {} == parties;
    }
  }

  lemma SharersSame(cs: seq<ClientInfo>, ds: seq<ClientInfo>, i: nat)
    requires i < |cs| && SameIdentities(cs, ds)
    requires forall j :: 0 <= j < |cs| ==> ds[j].state == cs[j].state
    ensures Sharers(ds, i) == Sharers(cs, i)
  {
    assert forall j :: 0 <= j < |cs| ==> SameIdentity(cs[j], ds[j]);
  }

  // ---- the other operations -------------------------------------------------------------------

  lemma AppendDivided(w: World, c: ClientInfo, parties: set<nat>)
    requires Divided(w, parties) && c.id == w.nextId && !Active(c)
    ensures Divided(Append(w, c), parties)
  {
    hide HasRules, View;
    var u := Append(w, c);
    forall j | 0 <= j < |u.clients|
      ensures ClientDivided(u.clients, j, u.fw, parties)
    {
      if j < |w.clients| {
        assert ClientDivided(w.clients, j, w.fw, parties);
        AloneAppended(w.clients, c, j);
      }
    }
  }

  lemma AloneAppended(cs: seq<ClientInfo>, c: ClientInfo, j: nat)
    requires j < |cs| && !Active(c)
    ensures Alone(cs + [c], j) <==> Alone(cs, j)
  {
    var ds := cs + [c];
    if m :| 0 <= m < |cs| && m != j && Active(cs[m]) && cs[m].ip == cs[j].ip {
      assert ds[m] == cs[m];
    }
  }

  /** A step that concerns neither the clients nor the rules. */
  lemma ElsewhereDivided(w: World, u: World, parties: set<nat>)
    requires Divided(w, parties) && u.clients == w.clients && u.fw == w.fw && u.nextId == w.nextId
    ensures Divided(u, parties)
  {
  }

  lemma AddDivided(w: World, req: AddRequest, parties: set<nat>, cfg: Config)
    requires Divided(w, parties)
    ensures Divided(AddPinned(w, req, cfg), parties) && Divided(AddUnpinned(w, req, cfg), parties)
  {
    hide Divided, Append, MacLists.MacFormat;
    var (u, at) := FindOrAppend(w, req, cfg);
    if u != w {
      var trusted := MacLists.IsTrusted(req.trustedMacs, req.mac);
      AppendDivided(w, NewClient(w.nextId, req.mac, req.ip, trusted, req.at), parties);
    }
    if at.Some? && at.value < |u.clients| {
      ElsewhereDivided(u, PinAt(u, at.value), parties);
    }
  }

  lemma ResetDivided(w: World, id: nat, start: int, end: int, parties: set<nat>)
    requires Divided(w, parties) && Waiting(w, id)
    ensures Divided(HttpReset(w, id, start, end), parties)
  {
    hide Divided;
    var i := FirstIndex(w.clients, ById(id));
    PutDivided(w, i, Cleared(w.clients[i], start, end), parties);
  }

  lemma StepDivided(w: World, op: Op, parties: set<nat>, cfg: Config)
    requires Good(w, cfg) && Divided(w, parties)
    ensures Divided(Step(w, op, cfg), parties + NewParties(w, op))
  {
    hide Good, Divided, FindOrAppend, AuthClient, ControlAuth, AdmissionParties, HttpReset, Waiting, Deauth, DeauthIds,
         Pass, MacLists.MacFormat;
    assert parties + {} == parties;
    match op
    case FindAndPinOp(mac, ip) => ElsewhereDivided(w, FindAndPin(w, mac, ip), parties);
    case AddPinnedOp(req) => AddDivided(w, req, parties, cfg);
    case AddUnpinnedOp(req) => AddDivided(w, req, parties, cfg);
    case UnpinOp(id) => ElsewhereDivided(w, Step(w, op, cfg), parties);
    case AuthOp(id, inp) => AuthClientDivided(w, id, inp, parties, cfg);
    case ControlAuthOp(id, preset, inp) => ControlAuthDivided(w, id, preset, inp, parties, cfg);
    case HttpResetOp(id, start, end) =>
      if Waiting(w, id) {
        ResetDivided(w, id, start, end, parties);
      }
    case DeauthOp(id) =>
      var i := FirstIndex(w.clients, ById(id));
      if i < |w.clients| {
        DeauthDivided(w, i, parties);
      }
    case DeauthAllOp => DeauthIdsDivided(w, Ids(w.clients), parties);
    case PassOp(now, snap, env) => PassDivided(w, now, snap, parties, cfg, env);
  }

  // ---- over every run -------------------------------------------------------------------------

  lemma {:induction false} RunDivided(ops: seq<Op>, cfg: Config)
    ensures Divided(Run(ops, cfg), AllParties(ops, cfg))
    decreases |ops|
  {
    hide Step, Divided, NewParties, Good;
    if ops == [] {
      NobodyDivided(cfg);
    } else {
      var before := ops[..|ops| - 1];
      RunDivided(before, cfg);
      RunGood(before, cfg);
      StepDivided(Run(before, cfg), ops[|ops| - 1], AllParties(before, cfg), cfg);
    }
  }

  lemma NobodyDivided(cfg: Config)
    ensures Divided(Run([], cfg), {})
  {
  }

  /** In any state of any run an active client that is no party to a shared admission is the only active client at its
      address and has exactly its six rules. One that is the only active client at its address has its six rules if
      and only if it is no party; a party alone has no rule in any chain. */
  lemma PartiesLoseRules(ops: seq<Op>, cfg: Config, i: nat)
    requires i < |Run(ops, cfg).clients| && Active(Run(ops, cfg).clients[i])
    ensures var w, parties := Run(ops, cfg), AllParties(ops, cfg);
            var c := w.clients[i];
            var rules := View(w.fw, c.ip);
            && (c.id !in parties ==> Alone(w.clients, i) && HasRules(c, rules))
            && (Alone(w.clients, i) ==> (HasRules(c, rules) <==> c.id !in parties))
            && (Alone(w.clients, i) && c.id in parties ==> rules == EMPTY)
  {
    hide Run, AllParties, View, Alone;
    RunDivided(ops, cfg);
    var w := Run(ops, cfg);
    assert ClientDivided(w.clients, i, w.fw, AllParties(ops, cfg));
    NoRulesInEmpty(w.clients[i]);
  }

  lemma NoRulesInEmpty(c: ClientInfo)
    ensures !HasRules(c, EMPTY)
  {
  }

  /** So the exact condition for one state: all rules are exact if and only if no client active in it has been party to
      a shared admission. */
  lemma RulesExactNow(ops: seq<Op>, cfg: Config)
    ensures RulesExact(Run(ops, cfg))
            <==> forall i :: 0 <= i < |Run(ops, cfg).clients| && Active(Run(ops, cfg).clients[i]) ==>
                   Run(ops, cfg).clients[i].id !in AllParties(ops, cfg)
  {
    hide Run, AllParties, View, HasRules, Alone, Good;
    var w := Run(ops, cfg);
    forall i | 0 <= i < |w.clients| && Active(w.clients[i])
      ensures w.clients[i].id !in AllParties(ops, cfg) ==> HasRules(w.clients[i], View(w.fw, w.clients[i].ip))
      ensures RulesExact(w) ==> w.clients[i].id !in AllParties(ops, cfg)
    {
      PartiesLoseRules(ops, cfg, i);
      if RulesExact(w) {
        RunGood(ops, cfg);
        ExactAlone(w, i, cfg);
      }
    }
  }

  lemma ExactAlone(w: World, i: nat, cfg: Config)
    requires i < |w.clients| && Active(w.clients[i]) && RulesExact(w) && Good(w, cfg)
    ensures Alone(w.clients, i)
  {
    hide MemoryOk, ClientsOk, NoStaleRules, Conserved;
    ExactMeansAlone(w, i, cfg);
  }
}
