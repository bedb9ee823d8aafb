/** The failing input of the cadence: a run in which a throttle that cannot read its listings restarts the window of a
    client that stays authenticated. */
module WindowRestarts {
  import opened Basics
  import opened Clients
  import opened CounterRefresh
  import opened RateLimit
  import opened Session
  import opened PassFilter
  import opened RunSteps
  import opened WindowCadence
  import MacLists

  lemma FailedThrottleKeeps(w: World, i: nat, inp: ChangeInput, cfg: Config)
    requires i < |w.clients| && ThrottleFails(w.clients[i], Download, inp, cfg)
    ensures var d := Throttle(w, i, Download, inp, cfg).clients[i];
            && SameIdentity(w.clients[i], d) && d.state == Authenticated && d.uploadQuota == w.clients[i].uploadQuota
            && WindowOf(d) == Window(cfg.rateCheckWindow, inp.now)
  {
    hide ApplyLines;
    var c := WithRate(w.clients[i], Download, ThrottleRate(cfg, Download));
    var v := Put(w, i, Cell(StartWindow(c, inp.now, cfg), w.fw));
    RefreshChanges(v, inp.snap);
    var u := RefreshWorld(v, inp.snap).0;
    assert u.clients[i] == v.clients[i].(counters := u.clients[i].counters);
  }

  /** Whatever the window was, after the turn it looks as if it had had one check. */
  lemma TurnRestarts(w: World, i: nat, now: int, cfg: Config, env: Environment)
    requires i < |w.clients| && cfg.rateCheckWindow >= 2
    requires var c := w.clients[i];
             && ThrottleFails(c, Download, env(c.id, Download), cfg) && !SessionOver(c, now)
             && c.uploadQuota == 0 && !Idle(c, cfg.authIdleSecs, now)
    ensures |PassTurn(w, i, now, cfg, env).clients| == |w.clients|
    ensures var d := PassTurn(w, i, now, cfg, env).clients[i];
            && SameIdentity(w.clients[i], d) && d.state == Authenticated
            && WindowOf(d) == Window(cfg.rateCheckWindow - 1, env(w.clients[i].id, Download).now)
  {
    hide Throttle, Deauth, CheckRates;
    var c := w.clients[i];
    var inp := env(c.id, Download);
    var v := Throttle(w, i, Download, inp, cfg);
    FailedThrottleKeeps(w, i, inp, cfg);
    NothingDue(v, i, Upload, env(c.id, Upload), cfg);
    RatesKeepCounters(CellAt(v, i), now, cfg);
    TickWindow(CellAt(v, i), now, cfg);
  }

  lemma NothingDue(w: World, i: nat, dir: Direction, inp: ChangeInput, cfg: Config)
    requires i < |w.clients| && !QuotaReached(w.clients[i], dir)
    ensures Throttle(w, i, dir, inp, cfg) == w && !CutOffDue(w.clients[i], dir, cfg)
  {
  }

  lemma RestartEvents(w: World, i: nat, now: int, cfg: Config, env: Environment)
    requires i < |w.clients|
    requires var c := w.clients[i];
             && ThrottleFails(c, Download, env(c.id, Download), cfg) && !SessionOver(c, now)
             && c.uploadQuota == 0 && !Idle(c, cfg.authIdleSecs, now)
    ensures TurnEvents(w, i, now, cfg, env) == [FailedThrottle(env(w.clients[i].id, Download).now), Check(now)]
  {
    hide Throttle;
    var c := w.clients[i];
    var inp := env(c.id, Download);
    var v := Throttle(w, i, Download, inp, cfg);
    FailedThrottleKeeps(w, i, inp, cfg);
    NothingDue(v, i, Upload, env(c.id, Upload), cfg);
  }

  // ---- a run ----------------------------------------------------------------------------------

  /** No limiting, no default upload quota, no idle timeout, a throttle rate for downloads that is not the default
      rate, and a window of two checks or more. */
  predicate RestartConfig(cfg: Config) {
    && cfg.maxclients >= 1 && NoLimiting(cfg)
    && cfg.uploadQuota == 0 && cfg.authIdleSecs <= 0
    && cfg.fupDownloadThrottleRate != 0 && cfg.downloadRate != cfg.fupDownloadThrottleRate
    && cfg.rateCheckWindow >= 2
  }

  /** A turn in which nothing is due. */
  lemma CalmTurn(w: World, i: nat, now: int, cfg: Config, env: Environment)
    requires i < |w.clients| && NoLimiting(cfg)
    requires var c := w.clients[i];
             && c.state == Authenticated && c.windowCounter > 1 && !SessionOver(c, now)
             && !QuotaReached(c, Download) && !QuotaReached(c, Upload) && !Idle(c, cfg.authIdleSecs, now)
    ensures var c := w.clients[i];
            PassTurn(w, i, now, cfg, env).clients
            == w.clients[i := Measure(c, now).(windowCounter := c.windowCounter - 1)]
    ensures TurnEvents(w, i, now, cfg, env) == [Check(now)]
  {
    hide Throttle, AverageRate;
    var c := w.clients[i];
    NothingDue(w, i, Download, env(c.id, Download), cfg);
    NothingDue(w, i, Upload, env(c.id, Upload), cfg);
  }

  /** A pass over a list of one client is one turn. */
  lemma PassOfOne(w: World, now: int, snap: Snapshot, cfg: Config, env: Environment)
    requires |w.clients| == 1 && RefreshWorld(w, snap).1
    ensures var u := RefreshWorld(w, snap).0;
            && Pass(w, now, snap, cfg, env) == PassTurn(u, 0, now, cfg, env)
            && StepEvents(w, PassOp(now, snap, env), w.clients[0].id, cfg) == TurnEvents(u, 0, now, cfg, env)
  {
    hide PassTurn, TurnEvents, Refresh;
    var u := RefreshWorld(w, snap).0;
    assert SameIdentity(w.clients[0], u.clients[0]);
    FirstIndexUnique(u.clients, ById(w.clients[0].id), 0);
    var id := w.clients[0].id;
    var v := PassClient(u, id, now, cfg, env);
    assert Ids(u.clients) == [id] && [id][1..] == [];
    assert PassWalk(v, [], now, cfg, env) == v && WalkEvents(v, [], id, now, cfg, env) == NOTHING;
    assert TurnEvents(u, 0, now, cfg, env) + NOTHING == TurnEvents(u, 0, now, cfg, env);
  }

  function Granting(): Op {
    ControlAuthOp(1, Preset(0, 0, None, 0, 0, 0, 1), ChangeInput(0, 0, None, NO_LINES))
  }

  /** The client with a download quota of 1 kB, just authenticated. */
  lemma OneAuthenticated(mac: string, ip: string, cfg: Config)
    requires MacLists.MacFormat(mac) && RestartConfig(cfg)
    ensures var w := Run([AddUnpinnedOp(Request(mac, ip))] + [Granting()], cfg);
            && |w.clients| == 1
            && w.clients[0] == Opened(NewClient(1, mac, ip, false, 0), Granting().preset, Granting().inp, cfg)
                               .(state := Authenticated)
  {
    hide MacLists.MacFormat, Run, Step, Refresh, Opened;
    var add := AddUnpinnedOp(Request(mac, ip));
    assert [add] == [] + [add];
    RunStep([], add, cfg);
    NothingRun(cfg);
    Added(INITIAL, mac, ip, cfg);
    var w := Run([add], cfg);
    RunStep([add], Granting(), cfg);
    FirstIndexUnique(w.clients, ById(1), 0);
    PresetAuth(w, 0, Granting().preset, Granting().inp, cfg);
    NoLines(w.clients[0 := Opened(w.clients[0], Granting().preset, Granting().inp, cfg)]);
  }

  function Restarting(mac: string, ip: string, t1: int, t2: int, env: Environment): seq<Op> {
    [AddUnpinnedOp(Request(mac, ip))] + [Granting()]
    + [PassOp(t1, NO_LINES, env)] + [PassOp(t2, OneDownload(ip, 1024, t2), env)]
  }

  /** The pass in between has nothing to do. */
  lemma CalmPass(w: World, mac: string, ip: string, now: int, cfg: Config, env: Environment)
    requires RestartConfig(cfg) && |w.clients| == 1
    requires w.clients[0] == Opened(NewClient(1, mac, ip, false, 0), Granting().preset, Granting().inp, cfg)
                             .(state := Authenticated)
    ensures var u := Step(w, PassOp(now, NO_LINES, env), cfg);
            && u.clients == [Measure(w.clients[0], now).(windowCounter := cfg.rateCheckWindow - 1)]
            && StepEvents(w, PassOp(now, NO_LINES, env), 1, cfg) == [Check(now)]
  {
    hide PassTurn, TurnEvents, StepEvents, Pass, Measure;
    NoLines(w.clients);
    assert RefreshWorld(w, NO_LINES) == (w, true);
    PassOfOne(w, now, NO_LINES, cfg, env);
    CalmTurn(w, 0, now, cfg, env);
  }

  lemma QuotaUsedUp(c: ClientInfo, before: int, cfg: Config)
    requires RestartConfig(cfg)
    requires c == Opened(NewClient(1, c.mac, c.ip, false, 0), Granting().preset, Granting().inp, cfg)
                  .(state := Authenticated)
    ensures var d := Measure(c, before).(windowCounter := cfg.rateCheckWindow - 1);
            var e := d.(counters := CountIncoming(d.counters, Line(d.ip, 1, 1024)));
            && SameIdentity(c, e) && SameIdentity(c, d) && e.id == 1 && e.state == Authenticated
            && QuotaReached(e, Download) && e.downloadRate == cfg.downloadRate
            && e.uploadQuota == 0 && e.sessionEnd == 0
  {
    hide AverageRate;
  }

  /** The pass that finds the quota used up and cannot read the listings for the throttle. */
  lemma FailingPass(w: World, c: ClientInfo, now: int, before: int, cfg: Config, env: Environment)
    requires RestartConfig(cfg) && c.ip != "0.0.0.0"
    requires c == Opened(NewClient(1, c.mac, c.ip, false, 0), Granting().preset, Granting().inp, cfg)
                  .(state := Authenticated)
    requires w.clients == [Measure(c, before).(windowCounter := cfg.rateCheckWindow - 1)]
    requires env(1, Download).snap.outgoing.None?
    ensures var op := PassOp(now, OneDownload(c.ip, 1024, now), env);
            var u := Step(w, op, cfg);
            && |u.clients| == 1 && u.clients[0].id == 1 && u.clients[0].state == Authenticated
            && WindowOf(u.clients[0]) == Window(cfg.rateCheckWindow - 1, env(1, Download).now)
            && StepEvents(w, op, 1, cfg) == [FailedThrottle(env(1, Download).now), Check(now)]
  {
    hide PassTurn, TurnEvents, StepEvents, Pass, Opened, Measure, CountIncoming, QuotaReached, Refresh;
    var snap := OneDownload(c.ip, 1024, now);
    var u := RefreshWorld(w, snap).0;
    QuotaUsedUp(c, before, cfg);
    OneDownloadRefresh(w.clients, 0, 1024, now);
    PassOfOne(w, now, snap, cfg, env);
    TurnRestarts(u, 0, now, cfg, env);
    RestartEvents(u, 0, now, cfg, env);
  }

  /** A run that breaks the cadence, for any MAC and any address: two rate checks after the window started, the counter
      stands where one check would have left it, and the window does not start where the grant started it. */
  lemma CadenceFailsOnARun(mac: string, ip: string, t1: int, t2: int, cfg: Config, env: Environment)
    requires MacLists.MacFormat(mac) && ip != "0.0.0.0" && RestartConfig(cfg)
    requires env(1, Download).snap.outgoing.None?
    ensures var ops, size, at := Restarting(mac, ip, t1, t2, env), cfg.rateCheckWindow, env(1, Download).now;
            var start, end := Lookup(Run(ops[..2], cfg), 1), Lookup(Run(ops, cfg), 1);
            && start.Some? && start.value.state == Authenticated && WindowOf(start.value) == Window(size, 0)
            && end.Some? && end.value.state == Authenticated && WindowOf(end.value) == Window(size - 1, at)
            && RunEvents(ops, 2, 1, cfg) == [Check(t1), FailedThrottle(at), Check(t2)]
            && end.value.windowCounter != size - 2 % size
  {
    hide MacLists.MacFormat, Run, Step, StepEvents, Opened, Measure, RunEvents;
    var a, b := AddUnpinnedOp(Request(mac, ip)), Granting();
    var c, d := PassOp(t1, NO_LINES, env), PassOp(t2, OneDownload(ip, 1024, t2), env);
    var ops := Restarting(mac, ip, t1, t2, env);
    assert ops == [a] + [b] + [c] + [d] && ops[..2] == [a] + [b];
    OneAuthenticated(mac, ip, cfg);
    var w := Run([a] + [b], cfg);
    OpenedWindow(mac, ip, cfg);
    CalmPass(w, mac, ip, t1, cfg, env);
    RunStep([a] + [b], c, cfg);
    var u := Run([a] + [b] + [c], cfg);
    FailingPass(u, w.clients[0], t2, t1, cfg, env);
    RunStep([a] + [b] + [c], d, cfg);
    EventsOf([a] + [b], c, d, 1, cfg);
  }

  lemma OpenedWindow(mac: string, ip: string, cfg: Config)
    ensures var c := Opened(NewClient(1, mac, ip, false, 0), Granting().preset, Granting().inp, cfg);
            c.id == 1 && c.ip == ip && c.mac == mac && WindowOf(c) == Window(cfg.rateCheckWindow, 0)
  {
  }

  lemma EventsOf(ops: seq<Op>, c: Op, d: Op, id: nat, cfg: Config)
    ensures RunEvents(ops + [c] + [d], |ops|, id, cfg)
            == StepEvents(Run(ops, cfg), c, id, cfg) + StepEvents(Run(ops + [c], cfg), d, id, cfg)
  {
    hide Run, StepEvents;
    assert (ops + [c] + [d])[..|ops| + 1] == ops + [c] && (ops + [c])[..|ops|] == ops;
    assert RunEvents(ops, |ops|, id, cfg) == [];
    assert RunEvents(ops + [c], |ops|, id, cfg) == [] + StepEvents(Run(ops, cfg), c, id, cfg);
  }
}
