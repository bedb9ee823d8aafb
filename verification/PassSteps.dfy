/** The periodic pass and the other operations built from state changes keep the invariants. */
module PassSteps {
  import opened Basics
  import opened Clients
  import opened Firewall
  import opened Session
  import opened Invariants
  import opened Reachable
  import opened NodeMemory

  // ---- throttling -----------------------------------------------------------------------------

  /** A step on the client at i that leaves it active and the others with other counters at most. */
  ghost predicate BlockedFrom(w: World, u: World, i: nat, cfg: Config)
    requires i < |w.clients|
  {
    var ip := w.clients[i].ip;
    && Touches(w, u, i) && ClientsOk(u, cfg)
    && SameIdentity(w.clients[i], u.clients[i]) && Active(u.clients[i])
    && (forall j :: 0 <= j < |w.clients| && j != i ==> u.clients[j] == w.clients[j].(counters := u.clients[j].counters))
    && FirewallLocal(w.fw, u.fw, ip)
    && (HasRules(w.clients[i], View(w.fw, ip)) ==> HasRules(u.clients[i], View(u.fw, ip)))
  }

  lemma BeginBlockFrom(w: World, i: nat, inp: ChangeInput, cfg: Config)
    requires i < |w.clients| && ClientsOk(w, cfg) && Active(w.clients[i])
    ensures BlockedFrom(w, BeginBlock(w, i, inp, cfg).0, i, cfg)
    ensures BeginBlock(w, i, inp, cfg).0.clients[i].state == w.clients[i].state
  {
    RefreshWorldKeeps(Put(w, i, Cell(StartWindow(w.clients[i], inp.now, cfg), w.fw)), inp.snap, cfg);
  }

  lemma FinishBlockFrom(w: World, u: World, i: nat, cfg: Config)
    requires i < |w.clients| && BlockedFrom(w, u, i, cfg)
    ensures BlockedFrom(w, FinishBlock(u, i, cfg), i, cfg)
  {
    hide LimitDownload, LimitUpload;
    BlockLimitersOk(CellAt(u, i), cfg);
  }

  lemma BlockFrom(w: World, i: nat, inp: ChangeInput, cfg: Config)
    requires i < |w.clients| && ClientsOk(w, cfg) && Active(w.clients[i])
    ensures BlockedFrom(w, Block(w, i, inp, cfg).0, i, cfg)
  {
    var (u, ok) := BeginBlock(w, i, inp, cfg);
    BeginBlockFrom(w, i, inp, cfg);
    if ok {
      FinishBlockFrom(w, u, i, cfg);
    }
  }

  lemma BlockedGood(w: World, u: World, i: nat, cfg: Config)
    requires i < |w.clients| && Good(w, cfg) && Active(w.clients[i]) && BlockedFrom(w, u, i, cfg)
    ensures Good(u, cfg)
  {
    hide MemoryOk, ListOk, ClientsOk, NoStaleRules, HasRules;
    TouchKeeps(w, u, i, cfg);
    CountChange(w.clients, u.clients, i);
    assert ActiveAddress(u.clients, w.clients[i].ip);
    NoStaleAt(w, u, i);
  }

  lemma BlockedExact(w: World, u: World, i: nat, cfg: Config)
    requires i < |w.clients| && Active(w.clients[i]) && BlockedFrom(w, u, i, cfg)
    requires RulesExact(w) && ListOk(w, cfg)
    ensures RulesExact(u)
  {
    ExactMeansAlone(w, i, cfg);
    OthersExact(w, u, i);
  }

  lemma WithRateGood(w: World, i: nat, dir: Direction, rate: U64, cfg: Config)
    requires i < |w.clients| && Good(w, cfg) && w.clients[i].state != Trusted
    ensures Good(Put(w, i, Cell(WithRate(w.clients[i], dir, rate), w.fw)), cfg)
    ensures RulesExact(w) ==> RulesExact(Put(w, i, Cell(WithRate(w.clients[i], dir, rate), w.fw)))
  {
    hide MemoryOk, ListOk, NoStaleRules, Conserved;
    PutKeepsGood(w, i, Cell(WithRate(w.clients[i], dir, rate), w.fw), cfg);
  }

  /** A trusted client has no quota to reach. */
  lemma TrustedNeverThrottled(w: World, i: nat, dir: Direction, cfg: Config)
    requires i < |w.clients| && ClientsOk(w, cfg) && w.clients[i].state == Trusted
    ensures !ThrottleDue(w.clients[i], dir, cfg)
  {
    assert ClientOk(w.clients[i], cfg);
  }

  predicate SameAddresses(w: World, u: World) {
    |u.clients| == |w.clients| && forall j :: 0 <= j < |w.clients| ==> SameIdentity(w.clients[j], u.clients[j])
  }

  lemma BlockClientGood(w: World, i: nat, inp: ChangeInput, cfg: Config)
    requires i < |w.clients| && Good(w, cfg)
    ensures var u := ChangeState(w, i, AuthBlocked, inp, cfg).0; Good(u, cfg) && SameAddresses(w, u)
  {
    hide MemoryOk, ListOk, ClientsOk, NoStaleRules, Conserved;
    if w.clients[i].state == Authenticated {
      BlockFrom(w, i, inp, cfg);
      BlockedGood(w, Block(w, i, inp, cfg).0, i, cfg);
    }
  }

  lemma BlockClientExact(w: World, i: nat, inp: ChangeInput, cfg: Config)
    requires i < |w.clients| && ClientsOk(w, cfg) && ListOk(w, cfg)
    requires RulesExact(w)
    ensures RulesExact(ChangeState(w, i, AuthBlocked, inp, cfg).0)
  {
    hide Block, ListOk, BlockedFrom, HasRules;
    if w.clients[i].state == Authenticated {
      BlockFrom(w, i, inp, cfg);
      BlockedExact(w, Block(w, i, inp, cfg).0, i, cfg);
    }
  }

  lemma ThrottleGood(w: World, i: nat, dir: Direction, inp: ChangeInput, cfg: Config)
    requires i < |w.clients| && Good(w, cfg)
    ensures var u := Throttle(w, i, dir, inp, cfg);
            Good(u, cfg) && SameAddresses(w, u) && (RulesExact(w) ==> RulesExact(u))
  {
    hide MemoryOk, ListOk, ClientsOk, NoStaleRules, Conserved, ChangeState, HasRules, View;
    if ThrottleDue(w.clients[i], dir, cfg) {
      if w.clients[i].state == Trusted {
        TrustedNeverThrottled(w, i, dir, cfg);
      }
      var v := Put(w, i, Cell(WithRate(w.clients[i], dir, ThrottleRate(cfg, dir)), w.fw));
      WithRateGood(w, i, dir, ThrottleRate(cfg, dir), cfg);
      BlockClientGood(v, i, inp, cfg);
      if RulesExact(w) {
        BlockClientExact(v, i, inp, cfg);
      }
    }
  }

  // ---- one turn and the whole pass ------------------------------------------------------------

  lemma CheckRatesGood(w: World, i: nat, now: int, cfg: Config)
    requires i < |w.clients| && Good(w, cfg) && w.clients[i].state != Preauthenticated
    ensures Good(Put(w, i, CheckRates(CellAt(w, i), now, cfg)), cfg)
  {
    CheckRatesOk(CellAt(w, i), now, cfg);
    PutKeepsGood(w, i, CheckRates(CellAt(w, i), now, cfg), cfg);
  }

  lemma CheckRatesExact(w: World, i: nat, now: int, cfg: Config)
    requires i < |w.clients| && ClientsOk(w, cfg) && ListOk(w, cfg)
    requires RulesExact(w) && w.clients[i].state != Preauthenticated
    ensures RulesExact(Put(w, i, CheckRates(CellAt(w, i), now, cfg)))
  {
    hide CheckRates, ListOk;
    CheckRatesOk(CellAt(w, i), now, cfg);
    if w.clients[i].state == Trusted {
      TrustedRates(CellAt(w, i), now, cfg);
    } else {
      ExactMeansAlone(w, i, cfg);
      OthersExact(w, Put(w, i, CheckRates(CellAt(w, i), now, cfg)), i);
    }
  }

  /** The rate section never touches the firewall for a client without rates. */
  lemma TrustedRates(x: Cell, now: int, cfg: Config)
    requires x.c.downloadRate == x.c.uploadRate == 0
    ensures CheckRates(x, now, cfg).fw == x.fw
  {
    hide LimitDownload, LimitUpload;
  }

  /** The part of a turn after the download quota. */
  lemma LateTurnGood(w: World, i: nat, c: ClientInfo, now: int, cfg: Config, env: Environment)
    requires i < |w.clients| && Good(w, cfg)
    ensures Good(LateTurn(w, i, c, now, cfg, env), cfg)
    ensures RulesExact(w) ==> RulesExact(LateTurn(w, i, c, now, cfg, env))
  {
    hide MemoryOk, ListOk, ClientsOk, NoStaleRules, Conserved, Throttle, Deauth, CheckRates, RulesExact;
    if CutOffDue(w.clients[i], Upload, cfg) {
      DeauthGood(w, i, cfg);
    } else {
      ThrottleGood(w, i, Upload, env(c.id, Upload), cfg);
      var v := Throttle(w, i, Upload, env(c.id, Upload), cfg);
      if c.state == Authenticated && Idle(c, cfg.authIdleSecs, now) {
        DeauthGood(v, i, cfg);
      } else if v.clients[i].state != Preauthenticated {
        CheckRatesGood(v, i, now, cfg);
        if RulesExact(v) {
          CheckRatesExact(v, i, now, cfg);
        }
      }
    }
  }

  /** One turn of the pass keeps every invariant, and exact rules exact. */
  lemma PassTurnGood(w: World, i: nat, now: int, cfg: Config, env: Environment)
    requires i < |w.clients| && Good(w, cfg)
    ensures Good(PassTurn(w, i, now, cfg, env), cfg)
    ensures RulesExact(w) ==> RulesExact(PassTurn(w, i, now, cfg, env))
  {
    hide MemoryOk, ListOk, ClientsOk, NoStaleRules, Conserved, Throttle, Deauth, LateTurn, RulesExact, DeleteAt;
    var c := w.clients[i];
    if c.state == Preauthenticated {
      if Idle(c, cfg.preauthIdleSecs, now) {
        DeleteInactiveGood(w, i, cfg);
        if RulesExact(w) {
          DeleteInactiveExact(w, i);
        }
      }
    } else if SessionOver(c, now) || CutOffDue(c, Download, cfg) {
      DeauthGood(w, i, cfg);
    } else {
      ThrottleGood(w, i, Download, env(c.id, Download), cfg);
      LateTurnGood(Throttle(w, i, Download, env(c.id, Download), cfg), i, c, now, cfg, env);
    }
  }
}
