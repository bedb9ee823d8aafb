/** The main results about the session engine, over every run. */
module Theorems {
  import opened Basics
  import opened Clients
  import opened Firewall
  import opened RateLimit
  import opened CounterRefresh
  import opened Session
  import opened Invariants
  import opened Reachable
  import opened PassSteps
  import opened Runs

  /** Pins and memory: a node is freed at most once and never while it is listed or pinned; a node off the list
      and not freed is dead and pinned; and when all pins have been returned nothing is leaked. */
  lemma NodesLiveExactlyWhileNeeded(ops: seq<Op>, cfg: Config, id: nat)
    ensures var w := Run(ops, cfg);
            && (id in w.refs ==> w.refs[id] == w.pins[id])
            && (id in w.freed ==> w.freed[id] == 1 && id !in w.refs && !Listed(w.clients, id) && w.pins[id] == 0)
            && (id in w.dead <==> id in w.refs && !Listed(w.clients, id))
            && (id in w.dead ==> w.pins[id] > 0)
            && (w.pins == multiset{} ==> (id in w.refs <==> Listed(w.clients, id)))
            && (1 <= id < w.nextId <==> id in w.refs || id in w.freed)
  {
    hide Run, ListOk, ClientsOk, NoStaleRules, Conserved;
    RunGood(ops, cfg);
  }

  /** No stale access: every rule in the four chains names the address of a listed client that is
      authenticated or throttled. */
  lemma NoStaleAccess(ops: seq<Op>, cfg: Config, rule: Rule)
    requires Installed(Run(ops, cfg).fw, rule)
    ensures ActiveAddress(Run(ops, cfg).clients, rule.ip)
  {
    hide Run, MemoryOk, ListOk, ClientsOk, Conserved, View;
    RunGood(ops, cfg);
    var w := Run(ops, cfg);
    if !ActiveAddress(w.clients, rule.ip) {
      NoRuleInView(w.fw, rule);
    }
  }

  lemma NoRuleInView(fw: Chains, rule: Rule)
    requires View(fw, rule.ip) == EMPTY
    ensures !Installed(fw, rule)
  {
    InstalledIffInView(fw, rule);
  }

  /** The limiter bits mirror the last limiter action issued in each direction, a client without a session has
      none set, and a zero bucket ratio keeps its bit clear. */
  lemma LimiterBitsMirrorActions(ops: seq<Op>, cfg: Config, i: nat)
    requires i < |Run(ops, cfg).clients|
    ensures var c := Run(ops, cfg).clients[i];
            && c.rateExceeded <= 3
            && (c.rateExceeded & 1 == 1 <==> c.downloadLimiting)
            && (c.rateExceeded & 2 == 2 <==> c.uploadLimiting)
            && (c.state == Preauthenticated ==> c.rateExceeded == 0)
            && (cfg.downloadBucketRatio == 0 ==> c.rateExceeded & 1 == 0)
            && (cfg.uploadBucketRatio == 0 ==> c.rateExceeded & 2 == 0)
  {
    hide Run, MemoryOk, ListOk, NoStaleRules, Conserved;
    RunGood(ops, cfg);
    var c := Run(ops, cfg).clients[i];
    assert BitsOk(c, cfg);
    LowBits(c.rateExceeded);
  }

  lemma PositionById(w: World, i: nat, cfg: Config)
    requires i < |w.clients| && Good(w, cfg)
    ensures FirstIndex(w.clients, ById(w.clients[i].id)) == i
  {
    hide MemoryOk, ClientsOk, NoStaleRules, Conserved;
    FirstIndexUnique(w.clients, ById(w.clients[i].id), i);
  }

  /** The reset of `authenticate_client` is no step of a run on a throttled client, which it can reach as well: it
      would clear bits and stored limits under rules that stay. It keeps the invariants of such a client if and only
      if the client is limited in neither direction. */
  lemma ResetOfThrottled(w: World, i: nat, start: int, end: int, cfg: Config)
    requires i < |w.clients| && Good(w, cfg) && w.clients[i].state == AuthBlocked
    ensures Good(HttpReset(w, w.clients[i].id, start, end), cfg)
            <==> !w.clients[i].downloadLimiting && !w.clients[i].uploadLimiting
  {
    hide MemoryOk, ListOk, NoStaleRules, Conserved, View;
    var c := w.clients[i];
    var d := Cleared(c, start, end);
    ClientAt(w, i, cfg);
    PositionById(w, i, cfg);
    if !c.downloadLimiting && !c.uploadLimiting {
      PutKeepsGood(w, i, Cell(d, w.fw), cfg);
    } else {
      assert !BitsOk(d, cfg);
      var u := Put(w, i, Cell(d, w.fw));
      assert u.clients[i] == d;
    }
  }

  lemma LowBits(bits: bv32)
    ensures bits & 1 == 0 || bits & 1 == 1
    ensures bits & 2 == 0 || bits & 2 == 2
  {
  }

  /** The byte differences of the rate check and of the limiter are those of the unbounded integers. */
  predicate DifferencesExact(cs: seq<ClientInfo>) {
    forall i :: 0 <= i < |cs| ==>
      var k := cs[i].counters;
      && Wrap(k.incoming - k.inWindowStart) == k.incoming - k.inWindowStart
      && Wrap(k.outgoing - k.outWindowStart) == k.outgoing - k.outWindowStart
      && Wrap(k.incoming - k.incomingPrevious) == k.incoming - k.incomingPrevious
      && Wrap(k.outgoing - k.outgoingPrevious) == k.outgoing - k.outgoingPrevious
  }

  lemma OkDifferences(w: World, cfg: Config)
    requires ClientsOk(w, cfg)
    ensures DifferencesExact(w.clients)
  {
    forall i | 0 <= i < |w.clients|
      ensures CountersOk(w.clients[i].counters)
    {
      assert ClientOk(w.clients[i], cfg);
    }
  }

  /** The state inside a pass, after the refresh and the turns of any clients. */
  function Midpass(ops: seq<Op>, now: int, snap: Snapshot, ids: seq<nat>, cfg: Config, env: Environment): World {
    PassWalk(RefreshWorld(Run(ops, cfg), snap).0, ids, now, cfg, env)
  }

  /** The state the rate section of the turn at i finds: the two quota checks come before it. */
  function AtRateCheck(w: World, i: nat, cfg: Config, env: Environment): (r: World)
    requires i < |w.clients|
    ensures |r.clients| == |w.clients|
  {
    var id := w.clients[i].id;
    Throttle(Throttle(w, i, Download, env(id, Download), cfg), i, Upload, env(id, Upload), cfg)
  }

  /** In no state in which the code forms a byte difference does it wrap: between critical sections, at any point
      of a pass, in the middle of a turn before and after each throttle, and where a throttle or an authentication
      sets up the limiters. */
  lemma ByteDifferencesNeverWrap(ops: seq<Op>, now: int, snap: Snapshot, ids: seq<nat>, i: nat, dir: Direction,
                                 p: Preset, inp: ChangeInput, cfg: Config, env: Environment)
    ensures DifferencesExact(Run(ops, cfg).clients)
    ensures DifferencesExact(Midpass(ops, now, snap, ids, cfg, env).clients)
    ensures var u := Midpass(ops, now, snap, ids, cfg, env);
            i < |u.clients| ==>
              && DifferencesExact(Throttle(u, i, dir, inp, cfg).clients)
              && DifferencesExact(AtRateCheck(u, i, cfg, env).clients)
              && (Active(u.clients[i]) ==> DifferencesExact(BeginBlock(u, i, inp, cfg).0.clients))
    ensures var w := Run(ops, cfg);
            i < |w.clients| && w.clients[i].state == Preauthenticated ==>
              && DifferencesExact(Admit(w, i, inp, cfg).0.clients)
              && DifferencesExact(Admit(Put(w, i, Cell(WithPreset(w.clients[i], p), w.fw)), i, inp, cfg).0.clients)
  {
    hide Run, PassWalk, RefreshWorld, Throttle, BeginBlock, Admit, DifferencesExact, MemoryOk, ListOk, ClientsOk,
         NoStaleRules, Conserved, AtRateCheck, AdmittedFrom, BlockedFrom;
    var w, u := Run(ops, cfg), Midpass(ops, now, snap, ids, cfg, env);
    RunGood(ops, cfg);
    OkDifferences(w, cfg);
    MidpassGood(ops, now, snap, ids, cfg, env);
    OkDifferences(u, cfg);
    if i < |u.clients| {
      ThrottleGood(u, i, dir, inp, cfg);
      OkDifferences(Throttle(u, i, dir, inp, cfg), cfg);
      RateCheckGood(u, i, cfg, env);
      OkDifferences(AtRateCheck(u, i, cfg, env), cfg);
      if Active(u.clients[i]) {
        BlockDifferences(u, i, inp, cfg);
      }
    }
    if i < |w.clients| && w.clients[i].state == Preauthenticated {
      AdmitDifferences(w, i, inp, cfg);
      PresetDifferences(w, i, p, inp, cfg);
    }
  }

  lemma MidpassGood(ops: seq<Op>, now: int, snap: Snapshot, ids: seq<nat>, cfg: Config, env: Environment)
    ensures Good(Midpass(ops, now, snap, ids, cfg, env), cfg)
  {
    hide Run, PassWalk, RefreshWorld, Good;
    RunGood(ops, cfg);
    RefreshWorldGood(Run(ops, cfg), snap, cfg);
    PassWalkGood(RefreshWorld(Run(ops, cfg), snap).0, ids, now, cfg, env);
  }

  lemma RateCheckGood(w: World, i: nat, cfg: Config, env: Environment)
    requires i < |w.clients| && Good(w, cfg)
    ensures Good(AtRateCheck(w, i, cfg, env), cfg)
  {
    hide Throttle, Good;
    var id := w.clients[i].id;
    ThrottleGood(w, i, Download, env(id, Download), cfg);
    ThrottleGood(Throttle(w, i, Download, env(id, Download), cfg), i, Upload, env(id, Upload), cfg);
  }

  lemma BlockDifferences(w: World, i: nat, inp: ChangeInput, cfg: Config)
    requires i < |w.clients| && ClientsOk(w, cfg) && Active(w.clients[i])
    ensures DifferencesExact(BeginBlock(w, i, inp, cfg).0.clients)
  {
    hide BeginBlock, ClientsOk, DifferencesExact;
    BeginBlockFrom(w, i, inp, cfg);
    OkDifferences(BeginBlock(w, i, inp, cfg).0, cfg);
  }

  lemma AdmitDifferences(w: World, i: nat, inp: ChangeInput, cfg: Config)
    requires i < |w.clients| && ClientsOk(w, cfg) && w.clients[i].state == Preauthenticated
    ensures DifferencesExact(Admit(w, i, inp, cfg).0.clients)
  {
    hide Admit, ClientsOk, DifferencesExact;
    AdmitKeeps(w, i, inp, cfg);
    OkDifferences(Admit(w, i, inp, cfg).0, cfg);
  }

  lemma PresetDifferences(w: World, i: nat, p: Preset, inp: ChangeInput, cfg: Config)
    requires i < |w.clients| && ClientsOk(w, cfg) && w.clients[i].state == Preauthenticated
    ensures DifferencesExact(Admit(Put(w, i, Cell(WithPreset(w.clients[i], p), w.fw)), i, inp, cfg).0.clients)
  {
    hide Admit, DifferencesExact;
    AdmitDifferences(Put(w, i, Cell(WithPreset(w.clients[i], p), w.fw)), i, inp, cfg);
  }

  /** So with a window that did not start in the future the rate section measures the exact average rate of the
      client it finds, at any point of any pass. */
  lemma MeasuredRateExact(ops: seq<Op>, now: int, snap: Snapshot, ids: seq<nat>, i: nat, cfg: Config, env: Environment)
    requires i < |Midpass(ops, now, snap, ids, cfg, env).clients|
    requires var c := AtRateCheck(Midpass(ops, now, snap, ids, cfg, env), i, cfg, env).clients[i];
             0 <= now - c.windowStart < TWO_TO_THE_64 - 1
    ensures var c := AtRateCheck(Midpass(ops, now, snap, ids, cfg, env), i, cfg, env).clients[i];
            var duration := now - c.windowStart + 1;
            && Measure(c, now).downrate == (c.counters.incoming - c.counters.inWindowStart) / (125 * duration)
            && Measure(c, now).uprate == (c.counters.outgoing - c.counters.outWindowStart) / (125 * duration)
  {
    hide Midpass, AtRateCheck, Good, Measure;
    var u := Midpass(ops, now, snap, ids, cfg, env);
    MidpassGood(ops, now, snap, ids, cfg, env);
    RateCheckGood(u, i, cfg, env);
    var v := AtRateCheck(u, i, cfg, env);
    ClientAt(v, i, cfg);
    MeasureExact(v.clients[i], now, cfg);
  }

  lemma MeasureExact(c: ClientInfo, now: int, cfg: Config)
    requires ClientOk(c, cfg) && 0 <= now - c.windowStart < TWO_TO_THE_64 - 1
    ensures var duration := now - c.windowStart + 1;
            && Measure(c, now).downrate == (c.counters.incoming - c.counters.inWindowStart) / (125 * duration)
            && Measure(c, now).uprate == (c.counters.outgoing - c.counters.outWindowStart) / (125 * duration)
  {
    hide AverageRate, Wrap;
    var received := c.counters.incoming - c.counters.inWindowStart;
    var sent := c.counters.outgoing - c.counters.outWindowStart;
    assert 0 <= received < TWO_TO_THE_64 && 0 <= sent < TWO_TO_THE_64;
    NoWrap(received);
    NoWrap(sent);
    AverageRateExact(received, c.windowStart, now);
    AverageRateExact(sent, c.windowStart, now);
  }

  lemma NoWrap(x: int)
    requires 0 <= x < TWO_TO_THE_64
    ensures Wrap(x) == x
  {
  }

  /** Conservation: every authentication ever counted is a listed active client or a completed
      deauthentication, and every client ever listed is listed still or has been deleted. */
  lemma AuthenticationsConserved(ops: seq<Op>, cfg: Config)
    ensures var w := Run(ops, cfg);
            && w.authCount == (ActiveCount(w.clients) + w.deauths) % TWO_TO_THE_32
            && w.nextId - 1 == w.count + w.deletions
            && w.count == |w.clients| <= Max(0, cfg.maxclients)
  {
    hide Run, MemoryOk, ClientsOk, NoStaleRules;
    RunGood(ops, cfg);
  }

  /** Lookups are unambiguous: the search by id finds exactly the client with the id, and so does the search
      by address and MAC, in any spelling of the MAC. */
  lemma LookupsAreUnique(ops: seq<Op>, cfg: Config, i: nat, mac: string)
    requires i < |Run(ops, cfg).clients| && Lower(mac) == Lower(Run(ops, cfg).clients[i].mac)
    ensures var cs := Run(ops, cfg).clients;
            && FirstIndex(cs, ById(cs[i].id)) == i
            && FirstIndex(cs, ByMacIp(mac, cs[i].ip)) == i
  {
    hide Run, MemoryOk, ClientsOk, NoStaleRules, Conserved;
    RunGood(ops, cfg);
    var cs := Run(ops, cfg).clients;
    FirstIndexUnique(cs, ById(cs[i].id), i);
    FirstIndexUnique(cs, ByMacIp(mac, cs[i].ip), i);
  }

  // ---- a shared address -----------------------------------------------------------------------

  /** When two clients share an address, deauthenticating one takes the rules of the other away as well: it
      stays listed and authenticated, with no rule left in any chain. */
  lemma SharedAddressLosesRules(w: World, i: nat, j: nat)
    requires i < |w.clients| && j < |w.clients| && i != j
    requires w.clients[i].state == w.clients[j].state == Authenticated
    requires w.clients[i].ip == w.clients[j].ip
    ensures var u := Deauth(w, i).0;
            && w.clients[j] in u.clients
            && View(u.fw, w.clients[j].ip) == EMPTY
            && !RulesExact(u)
  {
    hide View, Deauthenticate;
    var u := Deauth(w, i).0;
    var k := if j < i then j else j - 1;
    assert u.clients[k] == w.clients[j];
    ViewDeauthenticate(w.fw, w.clients[i].ip, w.clients[i].ip);
    assert !HasRules(u.clients[k], EMPTY);
  }
}
