/** What holds in every state a run can reach, whatever the order of the operations of HTTP requests,
    the watchdog and the control socket. */
module Runs {
  import opened Clients
  import opened Firewall
  import opened CounterRefresh
  import opened Session
  import opened Invariants
  import opened Reachable
  import opened NodeMemory
  import opened PassSteps

  lemma ClientAt(w: World, i: nat, cfg: Config)
    requires i < |w.clients| && Good(w, cfg)
    ensures ClientOk(w.clients[i], cfg)
  {
    hide MemoryOk, ListOk, NoStaleRules;
  }

  // ---- walks ----------------------------------------------------------------------------------

  lemma {:induction false} PassWalkGood(w: World, ids: seq<nat>, now: int, cfg: Config, env: Environment)
    requires Good(w, cfg)
    ensures var u := PassWalk(w, ids, now, cfg, env); Good(u, cfg) && (RulesExact(w) ==> RulesExact(u))
    decreases |ids|
  {
    hide Good, PassTurn, RulesExact;
    if ids != [] {
      var i := FirstIndex(w.clients, ById(ids[0]));
      if i < |w.clients| {
        PassTurnGood(w, i, now, cfg, env);
      }
      PassWalkGood(PassClient(w, ids[0], now, cfg, env), ids[1..], now, cfg, env);
    }
  }

  lemma {:induction false} DeauthIdsGood(w: World, ids: seq<nat>, cfg: Config)
    requires Good(w, cfg)
    ensures var u := DeauthIds(w, ids); Good(u, cfg) && (RulesExact(w) ==> RulesExact(u))
    decreases |ids|
  {
    hide Good, Deauth, RulesExact;
    if ids != [] {
      var i := FirstIndex(w.clients, ById(ids[0]));
      if i < |w.clients| {
        DeauthGood(w, i, cfg);
      }
      DeauthIdsGood(DeauthClient(w, ids[0]).0, ids[1..], cfg);
    }
  }

  lemma PassGood(w: World, now: int, snap: Snapshot, cfg: Config, env: Environment)
    requires Good(w, cfg)
    ensures Good(Pass(w, now, snap, cfg, env), cfg)
    ensures RulesExact(w) ==> RulesExact(Pass(w, now, snap, cfg, env))
  {
    hide MemoryOk, ListOk, ClientsOk, NoStaleRules, Conserved, RulesExact, PassWalk, Refresh;
    var (u, ok) := RefreshWorld(w, snap);
    RefreshWorldGood(w, snap, cfg);
    if RulesExact(w) {
      RefreshWorldExact(w, snap, cfg);
    }
    if ok {
      PassWalkGood(u, Ids(u.clients), now, cfg, env);
    }
  }

  // ---- the remaining operations ---------------------------------------------------------------

  lemma HttpResetGood(w: World, id: nat, start: int, end: int, cfg: Config)
    requires Good(w, cfg)
    ensures Good(Step(w, HttpResetOp(id, start, end), cfg), cfg)
    ensures RulesExact(w) ==> RulesExact(Step(w, HttpResetOp(id, start, end), cfg))
  {
    hide MemoryOk, ListOk, NoStaleRules, Conserved, View, HasRules;
    var i := FirstIndex(w.clients, ById(id));
    if Waiting(w, id) {
      ClientAt(w, i, cfg);
      PutKeepsGood(w, i, Cell(Cleared(w.clients[i], start, end), w.fw), cfg);
    }
  }

  /** What the control socket authenticates: the client with its preset values. */
  function Prepared(w: World, id: nat, p: Preset): World {
    var i := FirstIndex(w.clients, ById(id));
    if i == |w.clients| || w.clients[i].state != Preauthenticated then w
    else Put(w, i, Cell(WithPreset(w.clients[i], p), w.fw))
  }

  lemma PreparedGood(w: World, id: nat, p: Preset, inp: ChangeInput, cfg: Config)
    requires Good(w, cfg)
    ensures var u := Prepared(w, id, p);
            && Good(u, cfg) && (RulesExact(w) ==> RulesExact(u))
            && (AdmittedAlone(u, id, inp) <==> AdmittedAlone(w, id, inp))
  {
    hide MemoryOk, ListOk, NoStaleRules, Conserved, View, HasRules;
    var i := FirstIndex(w.clients, ById(id));
    if i < |w.clients| && w.clients[i].state == Preauthenticated {
      ClientAt(w, i, cfg);
      PutKeepsGood(w, i, Cell(WithPreset(w.clients[i], p), w.fw), cfg);
      FirstIndexSame(w.clients, Prepared(w, id, p).clients, ById(id));
    }
  }

  lemma ControlAuthIs(w: World, id: nat, p: Preset, inp: ChangeInput, cfg: Config)
    ensures var i := FirstIndex(w.clients, ById(id));
            ControlAuth(w, id, p, inp, cfg)
            == if i == |w.clients| || w.clients[i].state != Preauthenticated then w
               else AuthClient(Prepared(w, id, p), id, inp, cfg).0
  {
    hide AuthClient;
  }

  lemma ControlAuthGood(w: World, id: nat, p: Preset, inp: ChangeInput, cfg: Config)
    requires Good(w, cfg)
    ensures Good(ControlAuth(w, id, p, inp, cfg), cfg)
    ensures RulesExact(w) ==> (RulesExact(ControlAuth(w, id, p, inp, cfg)) <==> AdmittedAlone(w, id, inp))
  {
    hide Good, RulesExact, Prepared, AuthClient, Alone, ControlAuth;
    var u := Prepared(w, id, p);
    PreparedGood(w, id, p, inp, cfg);
    ControlAuthIs(w, id, p, inp, cfg);
    AuthClientGood(u, id, inp, cfg);
    if RulesExact(w) {
      AuthClientExact(u, id, inp, cfg);
    }
  }

  lemma AddGood(w: World, req: AddRequest, cfg: Config)
    requires Good(w, cfg)
    ensures Good(AddPinned(w, req, cfg), cfg) && Good(AddUnpinned(w, req, cfg), cfg)
    ensures RulesExact(w) ==> RulesExact(AddPinned(w, req, cfg)) && RulesExact(AddUnpinned(w, req, cfg))
  {
    hide MemoryOk, ListOk, ClientsOk, NoStaleRules, Conserved, FindOrAppend, View, HasRules;
    FindOrAppendGood(w, req, cfg);
    var (u, i) := FindOrAppend(w, req, cfg);
    if i.Some? {
      PinAtGood(u, i.value, cfg);
    }
  }

  lemma FindAndPinGood(w: World, mac: string, ip: string, cfg: Config)
    requires Good(w, cfg)
    ensures Good(FindAndPin(w, mac, ip), cfg)
    ensures RulesExact(w) ==> RulesExact(FindAndPin(w, mac, ip))
  {
    hide MemoryOk, ListOk, ClientsOk, NoStaleRules, Conserved, View, HasRules;
    var i := FirstIndex(w.clients, ByMacIp(mac, ip));
    if i < |w.clients| {
      PinAtGood(w, i, cfg);
    }
  }

  lemma UnpinStepGood(w: World, id: nat, cfg: Config)
    requires Good(w, cfg)
    ensures Good(Step(w, UnpinOp(id), cfg), cfg)
    ensures RulesExact(w) ==> RulesExact(Step(w, UnpinOp(id), cfg))
  {
    hide MemoryOk, ListOk, ClientsOk, NoStaleRules, Conserved, View, HasRules;
    if id in w.pins && id in w.refs {
      UnpinGood(w, id, cfg);
    }
  }

  lemma DeauthClientGood(w: World, id: nat, cfg: Config)
    requires Good(w, cfg)
    ensures Good(DeauthClient(w, id).0, cfg)
    ensures RulesExact(w) ==> RulesExact(DeauthClient(w, id).0)
  {
    hide Good, RulesExact, Deauth;
    var i := FirstIndex(w.clients, ById(id));
    if i < |w.clients| {
      DeauthGood(w, i, cfg);
    }
  }

  /** The operation admits nobody at an address where another client is active. */
  predicate Exclusive(w: World, op: Op) {
    match op
    case AuthOp(id, inp) => AdmittedAlone(w, id, inp)
    case ControlAuthOp(id, preset, inp) => AdmittedAlone(w, id, inp)
    case _ => true
  }

  /** One critical section keeps every invariant; and from exact rules it leads to exact rules if and only if
      it is exclusive. */
  lemma StepGood(w: World, op: Op, cfg: Config)
    requires Good(w, cfg)
    ensures Good(Step(w, op, cfg), cfg)
    ensures RulesExact(w) ==> (RulesExact(Step(w, op, cfg)) <==> Exclusive(w, op))
  {
    hide Good, RulesExact, FindAndPin, AddPinned, AddUnpinned, Unpin, AuthClient, ControlAuth,
         HttpReset, DeauthClient, DeauthIds, Pass, AdmittedAlone;
    match op
    case FindAndPinOp(mac, ip) => FindAndPinGood(w, mac, ip, cfg);
    case AddPinnedOp(req) => AddGood(w, req, cfg);
    case AddUnpinnedOp(req) => AddGood(w, req, cfg);
    case UnpinOp(id) => UnpinStepGood(w, id, cfg);
    case AuthOp(id, inp) =>
      AuthClientGood(w, id, inp, cfg);
      if RulesExact(w) { AuthClientExact(w, id, inp, cfg); }
    case ControlAuthOp(id, preset, inp) => ControlAuthGood(w, id, preset, inp, cfg);
    case HttpResetOp(id, start, end) => HttpResetGood(w, id, start, end, cfg);
    case DeauthOp(id) => DeauthClientGood(w, id, cfg);
    case DeauthAllOp => DeauthIdsGood(w, Ids(w.clients), cfg);
    case PassOp(now, snap, env) => PassGood(w, now, snap, cfg, env);
  }

  lemma EmptyMemory(w: World)
    requires w.clients == [] && w.nextId == 1 && w.refs == map[] && w.dead == {}
    requires w.pins == multiset{} && w.freed == multiset{}
    ensures MemoryOk(w)
  {
    assert forall id :: !Listed(w.clients, id);
  }

  lemma EmptyRules(w: World)
    requires w.fw == EMPTY
    ensures NoStaleRules(w)
  {
  }

  lemma EmptyCounts(w: World, cfg: Config)
    requires w.clients == [] && w.nextId == 1 && w.count == w.authCount == w.deauths == w.deletions == 0
    ensures ListOk(w, cfg) && ClientsOk(w, cfg) && Conserved(w) && RulesExact(w)
  {
  }

  lemma InitialGood(cfg: Config)
    ensures Good(INITIAL, cfg) && RulesExact(INITIAL)
  {
    hide MemoryOk, NoStaleRules, ListOk, ClientsOk, Conserved, RulesExact;
    EmptyMemory(INITIAL);
    EmptyRules(INITIAL);
    EmptyCounts(INITIAL, cfg);
  }

  // ---- theorems over all runs -----------------------------------------------------------------

  /** Every state of every run satisfies every invariant. */
  lemma {:induction false} RunGood(ops: seq<Op>, cfg: Config)
    ensures Good(Run(ops, cfg), cfg)
    decreases |ops|
  {
    hide Good, Step;
    if ops == [] {
      InitialGood(cfg);
    } else {
      RunGood(ops[..|ops| - 1], cfg);
      StepGood(Run(ops[..|ops| - 1], cfg), ops[|ops| - 1], cfg);
    }
  }

  /** What is pinned is allocated. */
  lemma PinnedAllocated(ops: seq<Op>, cfg: Config, id: nat)
    requires id in Run(ops, cfg).pins
    ensures id in Run(ops, cfg).refs
  {
    hide Run, ListOk, ClientsOk, NoStaleRules, Conserved;
    RunGood(ops, cfg);
  }

  /** If no client is ever admitted at an address where another one is active, every authenticated or throttled
      client has, in every state, exactly its six rules, in order, with exactly the limits stored with it. */
  lemma {:induction false} RunRulesExact(ops: seq<Op>, cfg: Config)
    requires forall k :: 0 <= k < |ops| ==> Exclusive(Run(ops[..k], cfg), ops[k])
    ensures RulesExact(Run(ops, cfg))
    decreases |ops|
  {
    hide Good, Step, RulesExact, Exclusive;
    if ops == [] {
      InitialGood(cfg);
    } else {
      var before := ops[..|ops| - 1];
      forall k | 0 <= k < |before|
        ensures Exclusive(Run(before[..k], cfg), before[k])
      {
        assert before[..k] == ops[..k];
      }
      RunRulesExact(before, cfg);
      RunGood(before, cfg);
      StepGood(Run(before, cfg), ops[|ops| - 1], cfg);
      assert Exclusive(Run(ops[..|ops| - 1], cfg), ops[|ops| - 1]);
    }
  }

  /** The exact condition over a run: the rules are exact in every state it goes through if and only if each of its
      operations is exclusive where it happens. */
  lemma RunRulesExactIff(ops: seq<Op>, cfg: Config)
    ensures (forall k :: 0 <= k <= |ops| ==> RulesExact(Run(ops[..k], cfg)))
            <==> (forall k :: 0 <= k < |ops| ==> Exclusive(Run(ops[..k], cfg), ops[k]))
  {
    hide Good, Run, Step, RulesExact, Exclusive;
    if forall k :: 0 <= k < |ops| ==> Exclusive(Run(ops[..k], cfg), ops[k]) {
      forall k | 0 <= k <= |ops|
        ensures RulesExact(Run(ops[..k], cfg))
      {
        forall j | 0 <= j < |ops[..k]|
          ensures Exclusive(Run(ops[..k][..j], cfg), ops[..k][j])
        {
          assert ops[..k][..j] == ops[..j];
        }
        RunRulesExact(ops[..k], cfg);
      }
    }
    if forall k :: 0 <= k <= |ops| ==> RulesExact(Run(ops[..k], cfg)) {
      forall k | 0 <= k < |ops|
        ensures Exclusive(Run(ops[..k], cfg), ops[k])
      {
        ExactStepExclusive(ops, k, cfg);
      }
    }
  }

  lemma ExactStepExclusive(ops: seq<Op>, k: nat, cfg: Config)
    requires k < |ops| && RulesExact(Run(ops[..k], cfg)) && RulesExact(Run(ops[..k + 1], cfg))
    ensures Exclusive(Run(ops[..k], cfg), ops[k])
  {
    hide Good, Step, RulesExact, Exclusive;
    assert ops[..k + 1][..k] == ops[..k];
    RunGood(ops[..k], cfg);
    StepGood(Run(ops[..k], cfg), ops[k], cfg);
  }
}
