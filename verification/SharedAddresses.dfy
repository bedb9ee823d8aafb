/** What goes wrong when two clients share an address: the two results that need distinct addresses, each with the
    inputs that break it. */
module SharedAddresses {
  import opened Basics
  import opened Clients
  import opened Firewall
  import opened CounterRefresh
  import opened Session
  import opened Invariants
  import opened Reachable
  import opened Runs
  import opened RunSteps
  import opened PassFilter
  import MacLists
  import Theorems

  /** An authentication that nothing stops. */
  lemma Admitted(w: World, i: nat, inp: ChangeInput, cfg: Config)
    requires i < |w.clients| && Good(w, cfg) && w.clients[i].state == Preauthenticated && Readable(inp)
    ensures var u := AuthClient(w, w.clients[i].id, inp, cfg).0;
            && SameIdentities(w.clients, u.clients) && u.clients[i].state == Authenticated
            && forall j :: 0 <= j < |w.clients| && j != i ==> u.clients[j].state == w.clients[j].state
  {
    hide MemoryOk, ClientsOk, NoStaleRules, Conserved, Authorize, AuthClient, Admit, Complete;
    FirstIndexUnique(w.clients, ById(w.clients[i].id), i);
    AuthClientIs(w, w.clients[i].id, inp, cfg);
    AuthorizeReadable(w, i, inp, cfg);
    AdmitKeeps(w, i, inp, cfg);
    CompleteShape(w, Admit(w, i, inp, cfg).0, i, cfg);
  }

  lemma AuthorizeReadable(w: World, i: nat, inp: ChangeInput, cfg: Config)
    requires i < |w.clients| && Readable(inp)
    ensures Admit(w, i, inp, cfg).1 && Authorize(w, i, inp, cfg) == (Complete(Admit(w, i, inp, cfg).0, i, cfg), 0)
  {
    hide Complete, ApplyLines;
  }

  /** Two clients at one address, both authenticated. */
  function TwoAtOne(mac1: string, mac2: string, ip: string, inp: ChangeInput): seq<Op> {
    [AddUnpinnedOp(Request(mac1, ip))] + [AddUnpinnedOp(Request(mac2, ip))] + [AuthOp(1, inp)] + [AuthOp(2, inp)]
  }

  lemma OneListed(mac: string, ip: string, cfg: Config)
    requires MacLists.MacFormat(mac) && cfg.maxclients >= 2
    ensures var w := Run([AddUnpinnedOp(Request(mac, ip))], cfg);
            w.clients == [NewClient(1, mac, ip, false, 0)] && w.nextId == 2 && w.count == 1
  {
    hide MacLists.MacFormat;
    RunStep([], AddUnpinnedOp(Request(mac, ip)), cfg);
    assert [AddUnpinnedOp(Request(mac, ip))] == [] + [AddUnpinnedOp(Request(mac, ip))];
  }

  lemma TwoListed(mac1: string, mac2: string, ip: string, cfg: Config)
    requires MacLists.MacFormat(mac1) && MacLists.MacFormat(mac2) && Lower(mac1) != Lower(mac2)
    requires cfg.maxclients >= 2
    ensures var w := Run([AddUnpinnedOp(Request(mac1, ip))] + [AddUnpinnedOp(Request(mac2, ip))], cfg);
            && |w.clients| == 2 && w.clients[0].id == 1 && w.clients[1].id == 2
            && w.clients[0].ip == w.clients[1].ip == ip
            && w.clients[0].state == w.clients[1].state == Preauthenticated
  {
    hide MacLists.MacFormat, Run;
    var a := AddUnpinnedOp(Request(mac1, ip));
    OneListed(mac1, ip, cfg);
    RunStep([a], AddUnpinnedOp(Request(mac2, ip)), cfg);
    FirstIndexUnique(Run([a], cfg).clients, ByMacIp(mac2, ip), 1);
  }

  lemma BothAuthenticated(mac1: string, mac2: string, ip: string, inp: ChangeInput, cfg: Config)
    requires MacLists.MacFormat(mac1) && MacLists.MacFormat(mac2) && Lower(mac1) != Lower(mac2)
    requires cfg.maxclients >= 2 && Readable(inp)
    ensures var w := Run(TwoAtOne(mac1, mac2, ip, inp), cfg);
            && |w.clients| == 2 && w.clients[0].id == 1 && w.clients[1].id == 2
            && w.clients[0].ip == w.clients[1].ip == ip
            && w.clients[0].state == w.clients[1].state == Authenticated
  {
    hide Run, AuthClient, Good;
    var two := [AddUnpinnedOp(Request(mac1, ip))] + [AddUnpinnedOp(Request(mac2, ip))];
    TwoListed(mac1, mac2, ip, cfg);
    RunGood(two, cfg);
    Admitted(Run(two, cfg), 0, inp, cfg);
    RunStep(two, AuthOp(1, inp), cfg);
    var three := two + [AuthOp(1, inp)];
    RunGood(three, cfg);
    assert SameIdentity(Run(two, cfg).clients[0], Run(three, cfg).clients[0]);
    assert SameIdentity(Run(two, cfg).clients[1], Run(three, cfg).clients[1]);
    Admitted(Run(three, cfg), 1, inp, cfg);
    RunStep(three, AuthOp(2, inp), cfg);
    var four := three + [AuthOp(2, inp)];
    assert SameIdentity(Run(three, cfg).clients[0], Run(four, cfg).clients[0]);
    assert SameIdentity(Run(three, cfg).clients[1], Run(four, cfg).clients[1]);
  }

  /** Distinct addresses in the list as it is now are not enough for exact rules: after one of the two has been
      deauthenticated the other is alone on the list, still authenticated, and has no rule in any chain. */
  lemma DistinctAddressesNotEnough(mac1: string, mac2: string, ip: string, inp: ChangeInput, cfg: Config)
    requires MacLists.MacFormat(mac1) && MacLists.MacFormat(mac2) && Lower(mac1) != Lower(mac2)
    requires cfg.maxclients >= 2 && Readable(inp)
    ensures var w := Run(TwoAtOne(mac1, mac2, ip, inp) + [DeauthOp(1)], cfg);
            && |w.clients| == 1 && w.clients[0].id == 2 && w.clients[0].ip == ip && w.clients[0].state == Authenticated
            && DistinctIps(w.clients)
            && View(w.fw, ip) == EMPTY
            && !RulesExact(w)
  {
    hide Run, View, HasRules, TwoAtOne;
    var ops := TwoAtOne(mac1, mac2, ip, inp);
    BothAuthenticated(mac1, mac2, ip, inp, cfg);
    RunStep(ops, DeauthOp(1), cfg);
    var w := Run(ops, cfg);
    FirstIndexUnique(w.clients, ById(1), 0);
    Theorems.SharedAddressLosesRules(w, 0, 1);
  }

  // ---- the pass with a shared address -----------------------------------------------------------

  /** Three authenticated clients, the first and the last at one address: the session of the first is over, the
      second has reached its download quota, and the third would reach its upload quota if the one line of the
      snapshot were counted for it. */
  predicate Trap(cs: seq<ClientInfo>, now: int, bytes: U64, cfg: Config) {
    && |cs| == 3 && cs[0].id < cs[1].id < cs[2].id
    && cs[0].state == cs[1].state == cs[2].state == Authenticated
    && cs[0].ip == cs[2].ip != cs[1].ip && cs[0].ip != "0.0.0.0"
    && SessionOver(cs[0], now)
    && cs[1].sessionEnd == 0 && ThrottleDue(cs[1], Download, cfg) && cs[1].uploadQuota == 0
    && cs[2].sessionEnd == 0 && cs[2].downloadQuota == 0 && cs[2].counters.outgoing == 0
    && 0 < cs[2].uploadQuota <= bytes / 1024
    && cfg.fupUploadThrottleRate == 0 && cfg.authIdleSecs == 0
  }

  /** The clients of a trap after the refresh at the start of the pass, and what Fate says of them. */
  lemma TrapFates(cs: seq<ClientInfo>, now: int, bytes: U64, at: int, cfg: Config)
    requires Trap(cs, now, bytes, cfg)
    ensures var snap := OneUpload(cs[0].ip, bytes, at);
            var rs := Refresh(cs, snap).0;
            && SameIdentities(cs, rs) && rs[1] == cs[1] && rs[2] == cs[2]
            && Fate(rs[0], now, cfg).None? && Fate(rs[1], now, cfg) == Some(AuthBlocked)
            && Fate(rs[2], now, cfg) == Some(Authenticated) && Fate(Recounted(rs[2], snap), now, cfg).None?
            && Throttled(rs[1], now, cfg)
  {
    hide Refresh;
    OneUploadRefresh(cs, 0, bytes, at);
    OneUploadRefresh([cs[2]], 0, bytes, at);
    assert [cs[2]][0] == cs[2];
  }

  lemma TrapSurvivors(rs: seq<ClientInfo>, now: int, cfg: Config)
    requires |rs| == 3 && Fate(rs[0], now, cfg).None? && Fate(rs[1], now, cfg) == Some(AuthBlocked)
    requires Fate(rs[2], now, cfg) == Some(Authenticated)
    ensures Survivors(rs, now, cfg) == [(rs[1].id, AuthBlocked), (rs[2].id, Authenticated)]
  {
    hide Fate;
    assert rs[0..] == rs && rs[3..] == [];
    SurvivorsStep(rs, 0, now, cfg);
    SurvivorsStep(rs, 1, now, cfg);
    SurvivorsStep(rs, 2, now, cfg);
  }

  /** Without distinct addresses a pass over one fixed snapshot need not be a filter of the refreshed starting
      list: in a trap the third client is deleted although its own counters say that it stays. */
  lemma SharedAddressChangesPass(w: World, now: int, bytes: U64, at: int, cfg: Config, env: Environment)
    requires Trap(w.clients, now, bytes, cfg)
    requires FixedSnapshot(env, OneUpload(w.clients[0].ip, bytes, at))
    ensures var snap := OneUpload(w.clients[0].ip, bytes, at);
            var cs := w.clients;
            && IdStates(Pass(w, now, snap, cfg, env).clients) == [(cs[1].id, AuthBlocked)]
            && Survivors(Refresh(cs, snap).0, now, cfg) == [(cs[1].id, AuthBlocked), (cs[2].id, Authenticated)]
  {
    hide Refresh, PassWalk, FixedSnapshot, Fate, Recounted, Throttled;
    var snap := OneUpload(w.clients[0].ip, bytes, at);
    var u := RefreshWorld(w, snap).0;
    TrapFates(w.clients, now, bytes, at, cfg);
    TrapSurvivors(u.clients, now, cfg);
    RefreshSucceeds(w.clients, snap, env);
    assert SameIdentity(w.clients[0], u.clients[0]);
    TrapWalk(u, now, snap, cfg, env);
    assert u.clients[0..] == u.clients;
  }

  /** The walk over the three, from the refreshed list. */
  lemma TrapWalk(u: World, now: int, snap: Snapshot, cfg: Config, env: Environment)
    requires |u.clients| == 3 && IncreasingIds(u.clients) && FixedSnapshot(env, snap)
    requires Fate(u.clients[0], now, cfg).None? && Fate(u.clients[1], now, cfg) == Some(AuthBlocked)
    requires Throttled(u.clients[1], now, cfg) && Fate(Recounted(u.clients[2], snap), now, cfg).None?
    requires u.clients[2].ip != u.clients[1].ip
    ensures IdStates(PassWalk(u, Ids(u.clients[0..]), now, cfg, env).clients) == [(u.clients[1].id, AuthBlocked)]
  {
    hide PassWalk, PassTurn, Fate, Recounted, Throttled, FixedSnapshot, Ended;
    PassFilter.WalkStep(u, 0, now, cfg, env);
    var v := PassTurn(u, 0, now, cfg, env);
    FirstTurn(u, now, snap, cfg, env);
    assert u.clients[1..] == v.clients[0..];
    PassFilter.WalkStep(v, 0, now, cfg, env);
    var x := PassTurn(v, 0, now, cfg, env);
    SecondTurn(v, now, snap, cfg, env);
    assert Ids(v.clients[1..]) == Ids(x.clients[1..]);
    PassFilter.WalkStep(x, 1, now, cfg, env);
    var y := PassTurn(x, 1, now, cfg, env);
    ThirdTurn(x, now, snap, cfg, env);
    assert Ids(x.clients[2..]) == Ids(y.clients[1..]);
    WalkOver(y, now, cfg, env);
  }

  /** The session of the first client is over. */
  lemma FirstTurn(w: World, now: int, snap: Snapshot, cfg: Config, env: Environment)
    requires |w.clients| == 3 && FixedSnapshot(env, snap) && Fate(w.clients[0], now, cfg).None?
    ensures PassTurn(w, 0, now, cfg, env).clients == [w.clients[1], w.clients[2]]
  {
    hide PassTurn, Fate, FixedSnapshot;
    TurnExact(w, 0, now, snap, cfg, env);
  }

  /** Throttling the second client counts the line for the third, now the first with its address. */
  lemma SecondTurn(w: World, now: int, snap: Snapshot, cfg: Config, env: Environment)
    requires |w.clients| == 2 && FixedSnapshot(env, snap) && Fate(w.clients[0], now, cfg) == Some(AuthBlocked)
    requires Throttled(w.clients[0], now, cfg) && w.clients[1].ip != w.clients[0].ip
    ensures var u := PassTurn(w, 0, now, cfg, env);
            && |u.clients| == 2 && u.clients[0].id == w.clients[0].id && u.clients[0].state == AuthBlocked
            && u.clients[1] == Recounted(w.clients[1], snap)
  {
    hide PassTurn, Fate, FixedSnapshot, Recounted, Refresh, Throttled;
    TurnExact(w, 0, now, snap, cfg, env);
    FirstIndexUnique(w.clients, ByIp(w.clients[1].ip), 1);
    RefreshAt(w.clients, snap, 1);
  }

  /** The third client is cut off by the bytes counted for it just before. */
  lemma ThirdTurn(w: World, now: int, snap: Snapshot, cfg: Config, env: Environment)
    requires |w.clients| == 2 && FixedSnapshot(env, snap) && Fate(w.clients[1], now, cfg).None?
    ensures PassTurn(w, 1, now, cfg, env).clients == [w.clients[0]]
  {
    hide PassTurn, Fate, FixedSnapshot;
    TurnExact(w, 1, now, snap, cfg, env);
  }

  // ---- a run into the trap ----------------------------------------------------------------------

  /** No limiting, no default quotas, a throttle rate for downloads only, no idle timeout. */
  predicate TrapConfig(cfg: Config) {
    && cfg.maxclients >= 3 && NoLimiting(cfg)
    && cfg.downloadQuota == cfg.uploadQuota == 0 && cfg.authIdleSecs == 0
    && cfg.fupUploadThrottleRate == 0 && cfg.fupDownloadThrottleRate != 0
    && cfg.downloadRate != cfg.fupDownloadThrottleRate
  }

  function Adds(mac1: string, mac2: string, mac3: string, ip: string, other: string): seq<Op> {
    [AddUnpinnedOp(Request(mac1, ip))] + [AddUnpinnedOp(Request(mac2, other))] + [AddUnpinnedOp(Request(mac3, ip))]
  }

  lemma ThreeListed(mac1: string, mac2: string, mac3: string, ip: string, other: string, cfg: Config)
    requires MacLists.MacFormat(mac1) && MacLists.MacFormat(mac2) && MacLists.MacFormat(mac3)
    requires Lower(mac1) != Lower(mac3) && ip != other && cfg.maxclients >= 3
    ensures Run(Adds(mac1, mac2, mac3, ip, other), cfg).clients
            == [NewClient(1, mac1, ip, false, 0), NewClient(2, mac2, other, false, 0), NewClient(3, mac3, ip, false, 0)]
  {
    hide MacLists.MacFormat, Run, Step, Lower;
    var a, b := AddUnpinnedOp(Request(mac1, ip)), AddUnpinnedOp(Request(mac2, other));
    var c := AddUnpinnedOp(Request(mac3, ip));
    NothingRun(cfg);
    assert [a] == [] + [a];
    RunStep([], a, cfg);
    Added(INITIAL, mac1, ip, cfg);
    RunStep([a], b, cfg);
    Added(Run([a], cfg), mac2, other, cfg);
    RunStep([a] + [b], c, cfg);
    Added(Run([a] + [b], cfg), mac3, ip, cfg);
  }

  /** A session that ends at 1, one with a download quota of 1 kB that is used up at once, one with an upload
      quota of 1 kB. */
  function Auths(other: string): seq<Op> {
    [ControlAuthOp(1, Preset(0, 1, None, 0, 0, 0, 0), ChangeInput(0, 0, None, NO_LINES))]
    + [ControlAuthOp(2, Preset(0, 0, None, 0, 0, 0, 1), ChangeInput(0, 0, None, OneDownload(other, 1024, 0)))]
    + [ControlAuthOp(3, Preset(0, 0, None, 0, 0, 1, 0), ChangeInput(0, 0, None, NO_LINES))]
  }

  lemma ThreeAuthenticated(w: World, other: string, cfg: Config)
    requires |w.clients| == 3 && w.clients[0].id == 1 && w.clients[1].id == 2 && w.clients[2].id == 3
    requires forall i :: 0 <= i < 3 ==> w.clients[i] == NewClient(i + 1, w.clients[i].mac, w.clients[i].ip, false, 0)
    requires w.clients[0].ip == w.clients[2].ip != w.clients[1].ip == other && TrapConfig(cfg)
    requires other != "0.0.0.0" && w.clients[0].ip != "0.0.0.0"
    ensures var a := Auths(other);
            var u := Step(Step(Step(w, a[0], cfg), a[1], cfg), a[2], cfg);
            && SameIdentities(w.clients, u.clients)
            && forall now: int, bytes: U64 :: now >= 1 && bytes >= 1024 ==> Trap(u.clients, now, bytes, cfg)
  {
    hide Step, Refresh;
    var a := Auths(other);
    var w1 := Step(w, a[0], cfg);
    FirstIndexUnique(w.clients, ById(1), 0);
    PresetAuth(w, 0, a[0].preset, a[0].inp, cfg);
    NoLines(w.clients[0 := Opened(w.clients[0], a[0].preset, a[0].inp, cfg)]);
    var w2 := Step(w1, a[1], cfg);
    FirstIndexUnique(w1.clients, ById(2), 1);
    PresetAuth(w1, 1, a[1].preset, a[1].inp, cfg);
    OneDownloadRefresh(w1.clients[1 := Opened(w1.clients[1], a[1].preset, a[1].inp, cfg)], 1, 1024, 0);
    FirstIndexUnique(w2.clients, ById(3), 2);
    PresetAuth(w2, 2, a[2].preset, a[2].inp, cfg);
    NoLines(w2.clients[2 := Opened(w2.clients[2], a[2].preset, a[2].inp, cfg)]);
  }

  lemma ThreeSteps(ops: seq<Op>, a: seq<Op>, cfg: Config)
    requires |a| == 3
    ensures Run(ops + a, cfg) == Step(Step(Step(Run(ops, cfg), a[0], cfg), a[1], cfg), a[2], cfg)
  {
    hide Run, Step;
    RunStep(ops, a[0], cfg);
    RunStep(ops + [a[0]], a[1], cfg);
    RunStep(ops + [a[0]] + [a[1]], a[2], cfg);
    assert ops + [a[0]] + [a[1]] + [a[2]] == ops + a;
  }

  lemma PassStep(w: World, now: int, snap: Snapshot, cfg: Config, env: Environment)
    ensures Step(w, PassOp(now, snap, env), cfg) == Pass(w, now, snap, cfg, env)
  {
    hide Pass;
  }

  lemma ThreeAuths(other: string)
    ensures |Auths(other)| == 3
  {
  }

  /** A run into the trap, for any three MACs and any two addresses; from there a pass at any later time and over
      any one line of at least 1 kB for the shared address deletes a client it should keep. */
  lemma PassFailsOnARun(mac1: string, mac2: string, mac3: string, ip: string, other: string, now: int, bytes: U64,
                        at: int, cfg: Config, env: Environment)
    requires MacLists.MacFormat(mac1) && MacLists.MacFormat(mac2) && MacLists.MacFormat(mac3)
             && Lower(mac1) != Lower(mac3)
    requires ip != other && ip != "0.0.0.0" && other != "0.0.0.0" && TrapConfig(cfg)
    requires now >= 1 && bytes >= 1024 && FixedSnapshot(env, OneUpload(ip, bytes, at))
    ensures var snap := OneUpload(ip, bytes, at);
            var ops := Adds(mac1, mac2, mac3, ip, other) + Auths(other);
            && IdStates(Run(ops + [PassOp(now, snap, env)], cfg).clients) == [(2, AuthBlocked)]
            && Survivors(Refresh(Run(ops, cfg).clients, snap).0, now, cfg) == [(2, AuthBlocked), (3, Authenticated)]
  {
    hide Run, Step, Refresh, Survivors, Pass, FixedSnapshot, Trap, IdStates, MacLists.MacFormat, Auths, Adds;
    var adds, snap := Adds(mac1, mac2, mac3, ip, other), OneUpload(ip, bytes, at);
    var w := Run(adds, cfg);
    ThreeListed(mac1, mac2, mac3, ip, other, cfg);
    ThreeAuthenticated(w, other, cfg);
    ThreeAuths(other);
    ThreeSteps(adds, Auths(other), cfg);
    var ops := adds + Auths(other);
    var u := Run(ops, cfg);
    assert SameIdentity(w.clients[0], u.clients[0]) && SameIdentity(w.clients[1], u.clients[1])
           && SameIdentity(w.clients[2], u.clients[2]);
    SharedAddressChangesPass(u, now, bytes, at, cfg, env);
    RunStep(ops, PassOp(now, snap, env), cfg);
    PassStep(u, now, snap, cfg, env);
  }
}
