/** What throttling sets: rates and quotas through a turn and through a whole pass. */
module Throttling {
  import opened Basics
  import opened Clients
  import opened Firewall
  import opened RateLimit
  import opened CounterRefresh
  import opened Counting
  import opened Session
  import opened Invariants
  import opened NodeMemory
  import opened PassFilter
  import opened Reachable
  import opened Runs
  import opened RunSteps
  import opened WindowCadence

  // ---- one client -----------------------------------------------------------------------------

  predicate SameQuotas(c: ClientInfo, d: ClientInfo) {
    d.downloadQuota == c.downloadQuota && d.uploadQuota == c.uploadQuota
  }

  predicate SameRates(c: ClientInfo, d: ClientInfo) {
    d.downloadRate == c.downloadRate && d.uploadRate == c.uploadRate
  }

  /** What a turn may change of a client, besides its rates, state, limits and window: its totals grow. */
  predicate Moves(c: ClientInfo, d: ClientInfo) {
    && SameIdentity(c, d) && SameQuotas(c, d) && d.sessionEnd == c.sessionEnd
    && (forall dir :: Bytes(c.counters, dir) <= Bytes(d.counters, dir))
  }

  predicate Keeps(c: ClientInfo, d: ClientInfo) {
    Moves(c, d) && SameRates(c, d)
  }

  lemma LimitKeeps(x: Cell, enable: bool, cfg: Config)
    ensures Keeps(x.c, LimitDownload(x, enable, cfg).c) && Keeps(x.c, LimitUpload(x, enable, cfg).c)
  {
    hide DownloadLimit, UploadLimit, ReplaceDownload, ReplaceUpload;
  }

  lemma BlockLimitsKeep(x: Cell, cfg: Config)
    ensures var y := BlockUpload(BlockDownload(x, cfg), cfg); Keeps(x.c, y.c)
  {
    hide LimitDownload, LimitUpload;
    LimitKeeps(x, true, cfg);
    LimitKeeps(BlockDownload(x, cfg), true, cfg);
  }

  lemma ExceedKeepsRates(x: Cell, cfg: Config)
    ensures var y := Exceed(x, cfg); Keeps(x.c, y.c)
  {
    hide LimitDownload, LimitUpload;
    LimitKeeps(x, true, cfg);
    LimitKeeps(ExceedDownload(x, cfg), true, cfg);
  }

  lemma KeepsOn(c: ClientInfo, d: ClientInfo, e: ClientInfo)
    requires Keeps(c, d) && Keeps(d, e)
    ensures Keeps(c, e)
  {
  }

  lemma ExpireKeepsRates(x: Cell, cfg: Config)
    ensures var y := ExpireUpload(ExpireDownload(x, cfg), cfg); Keeps(x.c, y.c)
  {
    hide ExpireDownload, ExpireUpload, Keeps;
    var y := ExpireDownload(x, cfg);
    ExpireKept(x, cfg);
    ExpireKept(y, cfg);
    KeepsOn(x.c, y.c, ExpireUpload(y, cfg).c);
  }

  lemma ExpireKept(x: Cell, cfg: Config)
    ensures Keeps(x.c, ExpireDownload(x, cfg).c) && Keeps(x.c, ExpireUpload(x, cfg).c)
  {
    hide LimitDownload, LimitUpload;
    RefreshedDownload(x, cfg);
    RefreshedUpload(x, cfg);
  }

  lemma RefreshedDownload(x: Cell, cfg: Config)
    ensures Keeps(x.c, LimitDownload(x, false, cfg).c)
    ensures Keeps(x.c, LimitDownload(LimitDownload(x, false, cfg), true, cfg).c)
  {
    hide LimitDownload, LimitUpload, Keeps;
    var off := LimitDownload(x, false, cfg);
    LimitKeeps(x, false, cfg);
    LimitKeeps(off, true, cfg);
    KeepsOn(x.c, off.c, LimitDownload(off, true, cfg).c);
  }

  lemma RefreshedUpload(x: Cell, cfg: Config)
    ensures Keeps(x.c, LimitUpload(x, false, cfg).c)
    ensures Keeps(x.c, LimitUpload(LimitUpload(x, false, cfg), true, cfg).c)
  {
    hide LimitDownload, LimitUpload, Keeps;
    var off := LimitUpload(x, false, cfg);
    LimitKeeps(x, false, cfg);
    LimitKeeps(off, true, cfg);
    KeepsOn(x.c, off.c, LimitUpload(off, true, cfg).c);
  }

  lemma CheckKeepsRates(x: Cell, now: int, cfg: Config)
    ensures var y := CheckRates(x, now, cfg); Keeps(x.c, y.c)
  {
    hide Exceed, ExpireDownload, ExpireUpload, AverageRate;
    var a := x.(c := Measure(x.c, now));
    var y := Exceed(a, cfg);
    ExceedKeepsRates(a, cfg);
    ExpireKeepsRates(y.(c := StartWindow(y.c, now, cfg)), cfg);
  }

  // ---- one throttle ---------------------------------------------------------------------------

  lemma BlockKeeps(w: World, i: nat, inp: ChangeInput, cfg: Config)
    requires i < |w.clients|
    ensures var (u, rc) := Block(w, i, inp, cfg);
            && |u.clients| == |w.clients| && Moves(w.clients[i], u.clients[i]) && SameRates(w.clients[i], u.clients[i])
            && u.clients[i].state == (if ListingsRead(inp) then AuthBlocked else w.clients[i].state)
            && (forall j :: 0 <= j < |w.clients| && j != i ==>
                  && u.clients[j] == w.clients[j].(counters := u.clients[j].counters)
                  && Moves(w.clients[j], u.clients[j]))
  {
    hide Refresh, BlockDownload, BlockUpload;
    var v := Put(w, i, Cell(StartWindow(w.clients[i], inp.now, cfg), w.fw));
    var u := RefreshWorld(v, inp.snap).0;
    RefreshCounts(v.clients, inp.snap, i);
    forall j, dir | 0 <= j < |v.clients|
      ensures Bytes(v.clients[j].counters, dir) <= Bytes(u.clients[j].counters, dir)
    {
      RefreshGrows(v.clients, inp.snap, j, dir);
    }
    assert forall j :: 0 <= j < |v.clients| ==> u.clients[j] == v.clients[j].(counters := u.clients[j].counters);
    BlockLimitsKeep(CellAt(u, i), cfg);
  }

  /** A throttle that is due puts the client at the throttle rate of its direction, whether or not the listings can be
      read. Its other rate and its quotas stay, and the same throttle is not due again. The client is throttled if it
      was authenticated and the listings can be read. Of the others only the totals grow. */
  lemma ThrottleSetsRate(w: World, i: nat, dir: Direction, inp: ChangeInput, cfg: Config)
    requires i < |w.clients|
    ensures var u := Throttle(w, i, dir, inp, cfg);
            var c, d := w.clients[i], u.clients[i];
            var due := ThrottleDue(c, dir, cfg);
            && Moves(c, d)
            && d.downloadRate == (if due && dir == Download then cfg.fupDownloadThrottleRate else c.downloadRate)
            && d.uploadRate == (if due && dir == Upload then cfg.fupUploadThrottleRate else c.uploadRate)
            && !ThrottleDue(d, dir, cfg)
            && d.state == (if due && c.state == Authenticated && ListingsRead(inp) then AuthBlocked else c.state)
    ensures var u := Throttle(w, i, dir, inp, cfg);
            forall j :: 0 <= j < |w.clients| && j != i ==>
              && u.clients[j] == w.clients[j].(counters := u.clients[j].counters)
              && Moves(w.clients[j], u.clients[j])
  {
    hide Block;
    if ThrottleDue(w.clients[i], dir, cfg) && w.clients[i].state == Authenticated {
      BlockKeeps(Put(w, i, Cell(WithRate(w.clients[i], dir, ThrottleRate(cfg, dir)), w.fw)), i, inp, cfg);
    }
  }

  // ---- one turn -------------------------------------------------------------------------------

  /** The client with this id is gone, or still there with other counters at most, and its totals have grown. */
  ghost predicate Stays(w: World, u: World, id: nat) {
    Lookup(u, id).Some? ==>
      && Lookup(w, id).Some?
      && var c, d := Lookup(w, id).value, Lookup(u, id).value;
      d == c.(counters := d.counters) && Moves(c, d)
  }

  lemma StaysOn(w: World, v: World, u: World, id: nat)
    requires Stays(w, v, id) && Stays(v, u, id)
    ensures Stays(w, u, id)
  {
    hide Lookup;
  }

  /** A step that changes the client at i and leaves the others where they are. */
  ghost predicate OnlyAt(w: World, u: World, i: nat)
    requires i < |w.clients|
  {
    && SameIdentities(w.clients, u.clients) && w.nextId == u.nextId
    && forall j :: 0 <= j < |w.clients| && j != i ==>
         u.clients[j] == w.clients[j].(counters := u.clients[j].counters) && Moves(w.clients[j], u.clients[j])
  }

  lemma OnlyAtStays(w: World, u: World, i: nat, id: nat)
    requires i < |w.clients| && OnlyAt(w, u, i) && Ordered(w)
    ensures Ordered(u)
    ensures w.clients[i].id != id ==> Stays(w, u, id)
    ensures w.clients[i].id == id ==> Lookup(w, id) == Some(w.clients[i]) && Lookup(u, id) == Some(u.clients[i])
  {
    assert forall j :: 0 <= j < |w.clients| ==> SameIdentity(w.clients[j], u.clients[j]);
    FirstIndexSame(w.clients, u.clients, ById(id));
    if w.clients[i].id == id {
      FirstIndexUnique(w.clients, ById(id), i);
    }
  }

  lemma DeauthStays(w: World, i: nat, id: nat)
    requires i < |w.clients| && Ordered(w)
    ensures Ordered(Deauth(w, i).0) && Stays(w, Deauth(w, i).0, id)
    ensures w.clients[i].id == id && w.clients[i].state == Authenticated ==> Lookup(Deauth(w, i).0, id).None?
  {
    hide Ordered;
    DeauthExact(w, i);
    if w.clients[i].state == Authenticated {
      RemovedStays(w, Deauth(w, i).0, i, id);
    }
  }

  lemma RemovedStays(w: World, u: World, i: nat, id: nat)
    requires i < |w.clients| && Ordered(w) && u.clients == Removed(w.clients, i) && u.nextId == w.nextId
    ensures Ordered(u) && Stays(w, u, id) && (w.clients[i].id == id ==> Lookup(u, id).None?)
  {
    hide IncreasingIds, Ordered;
    WindowCadence.RemovedOrdered(w, u, i);
    RemovedLookup(w.clients, i, id);
  }

  lemma ThrottleOnlyAt(w: World, i: nat, dir: Direction, inp: ChangeInput, cfg: Config)
    requires i < |w.clients|
    ensures OnlyAt(w, Throttle(w, i, dir, inp, cfg), i)
  {
    hide Throttle;
    ThrottleSetsRate(w, i, dir, inp, cfg);
    ThrottleKeepsIds(w, i, dir, inp, cfg);
  }

  lemma ThrottleKeepsIds(w: World, i: nat, dir: Direction, inp: ChangeInput, cfg: Config)
    requires i < |w.clients|
    ensures var u := Throttle(w, i, dir, inp, cfg);
            u.nextId == w.nextId && |u.clients| == |w.clients| && SameIdentity(w.clients[i], u.clients[i])
  {
    hide Refresh, BlockDownload, BlockUpload;
    ThrottleSetsRate(w, i, dir, inp, cfg);
  }

  /** The rates of a client after its own turn, if it is still there: each throttle that was due has set its own. The
      upload quota is tested on what the download throttle has left. */
  ghost predicate OwnRates(w: World, u: World, i: nat, cfg: Config, env: Environment)
    requires i < |w.clients|
  {
    var c := w.clients[i];
    var v := Throttle(w, i, Download, env(c.id, Download), cfg);
    Lookup(u, c.id).Some? ==>
      var d := Lookup(u, c.id).value;
      && Moves(c, d)
      && d.downloadRate == (if ThrottleDue(c, Download, cfg) then cfg.fupDownloadThrottleRate else c.downloadRate)
      && d.uploadRate == (if ThrottleDue(v.clients[i], Upload, cfg) then cfg.fupUploadThrottleRate else c.uploadRate)
  }

  lemma LateTurnRates(w: World, i: nat, c: ClientInfo, now: int, cfg: Config, env: Environment, id: nat)
    requires i < |w.clients| && Ordered(w)
    ensures var u := LateTurn(w, i, c, now, cfg, env);
            && Ordered(u)
            && (w.clients[i].id != id ==> Stays(w, u, id))
            && (Lookup(u, w.clients[i].id).Some? ==>
                  var b, d := w.clients[i], Lookup(u, w.clients[i].id).value;
                  && Moves(b, d) && d.downloadRate == b.downloadRate
                  && d.uploadRate == if ThrottleDue(b, Upload, cfg) then cfg.fupUploadThrottleRate else b.uploadRate)
  {
    hide Throttle, Deauth, CheckRates, Ordered, Lookup, Stays, OnlyAt, Moves, Idle;
    var own := w.clients[i].id;
    DeauthStays(w, i, id);
    DeauthStays(w, i, own);
    SelfAt(w, i);
    StandingStill(w.clients[i]);
    LeftAlone(w.clients[i], w, Deauth(w, i).0, own);
    NotBoth(w.clients[i], Upload, cfg);
    if !CutOffDue(w.clients[i], Upload, cfg) {
      var inp := env(c.id, Upload);
      var v := Throttle(w, i, Upload, inp, cfg);
      ThrottleSetsRate(w, i, Upload, inp, cfg);
      ThrottleOnlyAt(w, i, Upload, inp, cfg);
      ThrottleKeepsIds(w, i, Upload, inp, cfg);
      OnlyAtStays(w, v, i, id);
      OnlyAtStays(w, v, i, own);
      DeauthStays(v, i, id);
      DeauthStays(v, i, own);
      var u := Put(v, i, CheckRates(CellAt(v, i), now, cfg));
      CheckKeepsRates(CellAt(v, i), now, cfg);
      CheckOnlyAt(v, i, now, cfg);
      OnlyAtStays(v, u, i, id);
      OnlyAtStays(v, u, i, own);
      if w.clients[i].id != id {
        StaysOn(w, v, u, id);
        StaysOn(w, v, Deauth(v, i).0, id);
      }
      MovesOn(w.clients[i], v.clients[i], u.clients[i]);
      LeftAlone(w.clients[i], v, Deauth(v, i).0, own);
    }
  }

  lemma StandingStill(c: ClientInfo)
    ensures Keeps(c, c)
  {
  }

  lemma NotBoth(c: ClientInfo, dir: Direction, cfg: Config)
    ensures CutOffDue(c, dir, cfg) ==> !ThrottleDue(c, dir, cfg)
  {
  }

  lemma MovesOn(b: ClientInfo, c: ClientInfo, d: ClientInfo)
    requires Moves(b, c) && Moves(c, d)
    ensures Moves(b, d)
  {
  }

  lemma LeftAlone(b: ClientInfo, v: World, u: World, id: nat)
    requires Lookup(v, id).Some? && Moves(b, Lookup(v, id).value) && Stays(v, u, id)
    ensures Lookup(u, id).Some? ==>
              Moves(b, Lookup(u, id).value) && SameRates(Lookup(v, id).value, Lookup(u, id).value)
  {
    hide Lookup;
  }

  lemma SelfAt(w: World, i: nat)
    requires i < |w.clients| && Ordered(w)
    ensures Lookup(w, w.clients[i].id) == Some(w.clients[i])
  {
    FirstIndexUnique(w.clients, ById(w.clients[i].id), i);
  }

  lemma CheckOnlyAt(w: World, i: nat, now: int, cfg: Config)
    requires i < |w.clients|
    ensures OnlyAt(w, Put(w, i, CheckRates(CellAt(w, i), now, cfg)), i)
  {
    hide CheckRates;
    CheckKeepsRates(CellAt(w, i), now, cfg);
  }

  /** The turn gets past the session end and the download cut-off. */
  predicate Proceeds(c: ClientInfo, now: int, cfg: Config) {
    c.state != Preauthenticated && !SessionOver(c, now) && !CutOffDue(c, Download, cfg)
  }

  /** A turn sets the rates of its own client and leaves every other alone. */
  lemma TurnRates(w: World, i: nat, now: int, cfg: Config, env: Environment, id: nat)
    requires i < |w.clients| && Ordered(w)
    ensures var u := PassTurn(w, i, now, cfg, env);
            && Ordered(u)
            && (w.clients[i].id != id ==> Stays(w, u, id))
            && (Proceeds(w.clients[i], now, cfg) ==> OwnRates(w, u, i, cfg, env))
            && (w.clients[i].state == Authenticated && !Proceeds(w.clients[i], now, cfg) ==>
                  Lookup(u, w.clients[i].id).None?)
  {
    hide Throttle, Deauth, LateTurn, Ordered, Lookup, DeleteAt;
    var c := w.clients[i];
    DeauthStays(w, i, id);
    DeauthStays(w, i, c.id);
    SelfAt(w, i);
    if c.state == Preauthenticated {
      DeletedStays(w, i, id);
    } else if !SessionOver(c, now) && !CutOffDue(c, Download, cfg) {
      var inp := env(c.id, Download);
      var v := Throttle(w, i, Download, inp, cfg);
      ThrottleSetsRate(w, i, Download, inp, cfg);
      ThrottleOnlyAt(w, i, Download, inp, cfg);
      OnlyAtStays(w, v, i, id);
      OnlyAtStays(w, v, i, c.id);
      LateTurnRates(v, i, c, now, cfg, env, id);
    }
  }

  lemma DeletedStays(w: World, i: nat, id: nat)
    requires i < |w.clients| && Ordered(w)
    ensures Ordered(DeleteAt(w, i)) && Stays(w, DeleteAt(w, i), id) && Stays(w, w, id)
  {
    hide Ordered;
    assert DeleteAt(w, i).clients == Removed(w.clients, i);
    RemovedStays(w, DeleteAt(w, i), i, id);
  }

  // ---- a whole pass ---------------------------------------------------------------------------

  /** The client has used up its quota, and there is a throttle rate for it. Of the throttled clients, those are left
      out whose turn ends early: past the end of the session, or with a used-up download quota that has no throttle
      rate. */
  predicate ToBeSlow(c: ClientInfo, dir: Direction, now: int, cfg: Config) {
    && (c.state == Authenticated || c.state == AuthBlocked)
    && QuotaReached(c, dir) && ThrottleRate(cfg, dir) != 0
    && (c.state == AuthBlocked ==>
          !SessionOver(c, now) && (cfg.fupDownloadThrottleRate != 0 || c.downloadQuota == 0))
  }

  predicate AtThrottleRate(c: ClientInfo, dir: Direction, cfg: Config) {
    match dir
    case Download => c.downloadRate == cfg.fupDownloadThrottleRate
    case Upload => c.uploadRate == cfg.fupUploadThrottleRate
  }

  lemma ReachedStays(c: ClientInfo, d: ClientInfo, dir: Direction)
    requires Moves(c, d) && QuotaReached(c, dir)
    ensures QuotaReached(d, dir)
  {
    assert Bytes(c.counters, dir) <= Bytes(d.counters, dir);
  }

  lemma StaysToBeSlow(w: World, u: World, id: nat, dir: Direction, now: int, cfg: Config)
    requires Stays(w, u, id) && Lookup(u, id).Some?
    requires ToBeSlow(Lookup(w, id).value, dir, now, cfg)
    ensures ToBeSlow(Lookup(u, id).value, dir, now, cfg)
  {
    hide QuotaReached;
    ReachedStays(Lookup(w, id).value, Lookup(u, id).value, dir);
  }

  /** The client's own turn puts it at the throttle rate. */
  lemma OwnTurnSlows(w: World, i: nat, dir: Direction, now: int, cfg: Config, env: Environment)
    requires i < |w.clients| && Ordered(w) && ToBeSlow(w.clients[i], dir, now, cfg)
    ensures var d := Lookup(PassTurn(w, i, now, cfg, env), w.clients[i].id);
            d.Some? ==> AtThrottleRate(d.value, dir, cfg) && SameQuotas(w.clients[i], d.value)
  {
    hide PassTurn, Throttle, Lookup, Ordered, QuotaReached;
    var c := w.clients[i];
    var v := Throttle(w, i, Download, env(c.id, Download), cfg);
    TurnRates(w, i, now, cfg, env, c.id);
    ThrottleSetsRate(w, i, Download, env(c.id, Download), cfg);
    if dir == Upload {
      ReachedStays(c, v.clients[i], Upload);
    }
    if c.state == AuthBlocked {
      NoQuota(c);
    }
  }

  lemma NoQuota(c: ClientInfo)
    ensures c.downloadQuota == 0 ==> !QuotaReached(c, Download)
  {
  }

  lemma {:induction false} WalkStays(w: World, ids: seq<nat>, id: nat, now: int, cfg: Config, env: Environment)
    requires Ordered(w) && id !in ids
    ensures Stays(w, PassWalk(w, ids, now, cfg, env), id)
    decreases |ids|
  {
    hide PassTurn, Lookup, Ordered, Stays;
    if ids == [] {
      UnchangedStays(w, id);
    } else {
      var v := PassClient(w, ids[0], now, cfg, env);
      ClientStays(w, ids[0], id, now, cfg, env);
      WalkStays(v, ids[1..], id, now, cfg, env);
      StaysOn(w, v, PassWalk(v, ids[1..], now, cfg, env), id);
    }
  }

  lemma UnchangedStays(w: World, id: nat)
    ensures Stays(w, w, id)
  {
  }

  lemma ClientStays(w: World, other: nat, id: nat, now: int, cfg: Config, env: Environment)
    requires Ordered(w)
    ensures Ordered(PassClient(w, other, now, cfg, env))
    ensures other != id ==> Stays(w, PassClient(w, other, now, cfg, env), id)
  {
    hide PassTurn, Lookup, Ordered, Stays;
    var i := FirstIndex(w.clients, ById(other));
    UnchangedStays(w, id);
    if i < |w.clients| {
      TurnRates(w, i, now, cfg, env, id);
    }
  }

  predicate OnceIn(ids: seq<nat>, id: nat) {
    id in ids && forall i, j :: 0 <= i < j < |ids| ==> ids[i] != ids[j]
  }

  lemma {:induction false} WalkSlows(w: World, ids: seq<nat>, id: nat, dir: Direction, now: int, cfg: Config,
                                     env: Environment)
    requires Ordered(w) && OnceIn(ids, id)
    requires Lookup(w, id).Some? && ToBeSlow(Lookup(w, id).value, dir, now, cfg)
    ensures var c, d := Lookup(w, id).value, Lookup(PassWalk(w, ids, now, cfg, env), id);
            d.Some? ==> AtThrottleRate(d.value, dir, cfg) && SameQuotas(c, d.value)
    decreases |ids|
  {
    hide PassTurn, Ordered, ToBeSlow, PassWalk;
    var v := PassClient(w, ids[0], now, cfg, env);
    var u := PassWalk(v, ids[1..], now, cfg, env);
    WalkFirst(w, ids, now, cfg, env);
    ClientStays(w, ids[0], id, now, cfg, env);
    if ids[0] == id {
      OwnTurnSlows(w, FirstIndex(w.clients, ById(id)), dir, now, cfg, env);
      WalkStays(v, ids[1..], id, now, cfg, env);
    } else if Lookup(v, id).Some? {
      StaysToBeSlow(w, v, id, dir, now, cfg);
      WalkSlows(v, ids[1..], id, dir, now, cfg, env);
    } else {
      assert id in ids[1..];
      GoneStaysGone(v, ids[1..], id, now, cfg, env);
    }
  }

  lemma WalkFirst(w: World, ids: seq<nat>, now: int, cfg: Config, env: Environment)
    requires ids != []
    ensures PassWalk(w, ids, now, cfg, env)
            == PassWalk(PassClient(w, ids[0], now, cfg, env), ids[1..], now, cfg, env)
  {
  }

  lemma {:induction false} GoneStaysGone(w: World, ids: seq<nat>, id: nat, now: int, cfg: Config, env: Environment)
    requires Ordered(w) && Lookup(w, id).None?
    ensures Lookup(PassWalk(w, ids, now, cfg, env), id).None?
    decreases |ids|
  {
    hide PassTurn, Ordered;
    if ids != [] {
      ClientStays(w, ids[0], id, now, cfg, env);
      GoneStaysGone(PassClient(w, ids[0], now, cfg, env), ids[1..], id, now, cfg, env);
    }
  }

  /** In a pass that can read its listings, every active client that has used up a quota for which there is a throttle
      rate ends up at that rate, or is gone; its quotas stay. This holds for throttled clients as for authenticated
      ones, in both directions, and whatever the throttles in the pass can read. */
  lemma PassThrottles(ops: seq<Op>, now: int, snap: Snapshot, cfg: Config, env: Environment, id: nat, dir: Direction)
    requires snap.outgoing.Some? && snap.incoming.Some?
    requires var u := RefreshWorld(Run(ops, cfg), snap).0;
             Lookup(u, id).Some? && ToBeSlow(Lookup(u, id).value, dir, now, cfg)
    ensures var c := Lookup(RefreshWorld(Run(ops, cfg), snap).0, id).value;
            var d := Lookup(Run(ops + [PassOp(now, snap, env)], cfg), id);
            d.Some? ==> AtThrottleRate(d.value, dir, cfg) && SameQuotas(c, d.value)
  {
    hide Run, PassWalk, Ordered, ToBeSlow, Refresh, Good;
    var w := Run(ops, cfg);
    var u := RefreshWorld(w, snap).0;
    RunStep(ops, PassOp(now, snap, env), cfg);
    RunGood(ops, cfg);
    RefreshWorldGood(w, snap, cfg);
    GoodOrdered(u, cfg);
    PassIs(w, now, snap, cfg, env);
    OnceListed(u, id);
    WalkSlows(u, Ids(u.clients), id, dir, now, cfg, env);
  }

  lemma PassIs(w: World, now: int, snap: Snapshot, cfg: Config, env: Environment)
    requires snap.outgoing.Some? && snap.incoming.Some?
    ensures var u := RefreshWorld(w, snap).0;
            Step(w, PassOp(now, snap, env), cfg) == PassWalk(u, Ids(u.clients), now, cfg, env)
  {
    hide PassWalk;
  }

  lemma OnceListed(w: World, id: nat)
    requires Ordered(w) && Lookup(w, id).Some?
    ensures OnceIn(Ids(w.clients), id)
  {
    var ids := Ids(w.clients);
    assert ids[FirstIndex(w.clients, ById(id))] == id;
  }
}
