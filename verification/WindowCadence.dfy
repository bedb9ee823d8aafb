/** The cadence of the rate check window, over any stretch of any run. */
module WindowCadence {
  import opened Basics
  import opened Clients
  import opened Firewall
  import opened RateLimit
  import opened CounterRefresh
  import opened Session
  import opened Invariants
  import opened NodeMemory
  import opened Runs
  import opened PassFilter
  import MacLists
  import PassSteps
  import Reachable

  // ---- one rate check -------------------------------------------------------------------------

  lemma LimitKeepsWindow(x: Cell, enable: bool, cfg: Config)
    ensures var y := LimitDownload(x, enable, cfg);
            y.c.windowCounter == x.c.windowCounter && y.c.windowStart == x.c.windowStart
    ensures var y := LimitUpload(x, enable, cfg);
            y.c.windowCounter == x.c.windowCounter && y.c.windowStart == x.c.windowStart
  {
    hide DownloadLimit, UploadLimit, ReplaceDownload, ReplaceUpload;
  }

  lemma AuthKeepsWindow(x: Cell, cfg: Config)
    ensures var y := AuthUpload(AuthDownload(x, cfg), cfg);
            y.c.windowCounter == x.c.windowCounter && y.c.windowStart == x.c.windowStart
  {
    hide LimitDownload, LimitUpload;
    LimitKeepsWindow(x, true, cfg);
    LimitKeepsWindow(AuthDownload(x, cfg), true, cfg);
  }

  lemma BlockKeepsWindow(x: Cell, cfg: Config)
    ensures var y := BlockUpload(BlockDownload(x, cfg), cfg);
            y.c.windowCounter == x.c.windowCounter && y.c.windowStart == x.c.windowStart
  {
    hide LimitDownload, LimitUpload;
    LimitKeepsWindow(x, true, cfg);
    LimitKeepsWindow(BlockDownload(x, cfg), true, cfg);
  }

  lemma ExceedKeepsWindow(x: Cell, cfg: Config)
    ensures var y := Exceed(x, cfg);
            y.c.windowCounter == x.c.windowCounter && y.c.windowStart == x.c.windowStart
  {
    hide LimitDownload, LimitUpload;
    LimitKeepsWindow(x, true, cfg);
    LimitKeepsWindow(ExceedDownload(x, cfg), true, cfg);
  }

  lemma ExpireKeepsWindow(x: Cell, cfg: Config)
    ensures var y := ExpireDownload(x, cfg);
            y.c.windowCounter == x.c.windowCounter && y.c.windowStart == x.c.windowStart
    ensures var y := ExpireUpload(x, cfg);
            y.c.windowCounter == x.c.windowCounter && y.c.windowStart == x.c.windowStart
  {
    hide LimitDownload, LimitUpload;
    LimitKeepsWindow(x, false, cfg);
    LimitKeepsWindow(LimitDownload(x, false, cfg), true, cfg);
    LimitKeepsWindow(LimitUpload(x, false, cfg), true, cfg);
  }

  lemma ExpireStartsWindow(x: Cell, now: int, cfg: Config)
    ensures var y := Expire(x, now, cfg);
            y.c.windowCounter == cfg.rateCheckWindow && y.c.windowStart == now
  {
    hide ExpireDownload, ExpireUpload;
    var e := x.(c := StartWindow(x.c, now, cfg));
    ExpireKeepsWindow(e, cfg);
    ExpireKeepsWindow(ExpireDownload(e, cfg), cfg);
  }

  lemma TickWindow(x: Cell, now: int, cfg: Config)
    ensures var y := CheckRates(x, now, cfg);
            && y.c.windowCounter == (if x.c.windowCounter > 1 then x.c.windowCounter - 1 else cfg.rateCheckWindow)
            && y.c.windowStart == (if x.c.windowCounter > 1 then x.c.windowStart else now)
  {
    hide Exceed, Expire, AverageRate;
    var a := x.(c := Measure(x.c, now));
    ExceedKeepsWindow(a, cfg);
    ExpireStartsWindow(Exceed(a, cfg), now, cfg);
  }

  // ---- what happens to a window ---------------------------------------------------------------

  /** What can happen to the window of a client that stays in its state: a rate check, or a throttle that is due and
      fails, because a listing cannot be read, after it has restarted the window. */
  datatype Event = Check(at: int) | FailedThrottle(at: int)

  const NOTHING: seq<Event> := []

  datatype Window = Window(counter: int, start: int)

  function WindowOf(c: ClientInfo): Window {
    Window(c.windowCounter, c.windowStart)
  }

  function Play(v: Window, e: Event, size: int): Window {
    match e
    case Check(at) => if v.counter > 1 then v.(counter := v.counter - 1) else Window(size, at)
    case FailedThrottle(at) => Window(size, at)
  }

  function PlayAll(v: Window, events: seq<Event>, size: int): Window {
    if events == [] then v else Play(PlayAll(v, events[..|events| - 1], size), events[|events| - 1], size)
  }

  // ---- the events of one client ---------------------------------------------------------------

  predicate ListingsRead(inp: ChangeInput) {
    inp.snap.outgoing.Some? && inp.snap.incoming.Some?
  }

  /** A due throttle that leaves the client authenticated. */
  predicate ThrottleFails(c: ClientInfo, dir: Direction, inp: ChangeInput, cfg: Config) {
    c.state == Authenticated && ThrottleDue(c, dir, cfg) && !ListingsRead(inp)
  }

  function ThrottleEvents(c: ClientInfo, dir: Direction, inp: ChangeInput, cfg: Config): seq<Event> {
    if ThrottleFails(c, dir, inp, cfg) then [FailedThrottle(inp.now)] else []
  }

  function LateEvents(w: World, i: nat, c: ClientInfo, now: int, cfg: Config, env: Environment): seq<Event>
    requires i < |w.clients|
  {
    if CutOffDue(w.clients[i], Upload, cfg) then []
    else
      var inp := env(c.id, Upload);
      var v := Throttle(w, i, Upload, inp, cfg);
      ThrottleEvents(w.clients[i], Upload, inp, cfg)
      + if (c.state == Authenticated && Idle(c, cfg.authIdleSecs, now)) || v.clients[i].state == Preauthenticated
        then []
        else [Check(now)]
  }

  /** The events of one turn: the throttles that fail in it, and the rate check if the turn gets that far. */
  function TurnEvents(w: World, i: nat, now: int, cfg: Config, env: Environment): seq<Event>
    requires i < |w.clients|
  {
    var c := w.clients[i];
    if c.state == Preauthenticated || SessionOver(c, now) || CutOffDue(c, Download, cfg) then []
    else
      var inp := env(c.id, Download);
      ThrottleEvents(c, Download, inp, cfg) + LateEvents(Throttle(w, i, Download, inp, cfg), i, c, now, cfg, env)
  }

  function WalkEvents(w: World, ids: seq<nat>, id: nat, now: int, cfg: Config, env: Environment): seq<Event>
    decreases |ids|
  {
    if ids == [] then []
    else
      var i := FirstIndex(w.clients, ById(ids[0]));
      (if ids[0] == id && i < |w.clients| then TurnEvents(w, i, now, cfg, env) else [])
      + WalkEvents(PassClient(w, ids[0], now, cfg, env), ids[1..], id, now, cfg, env)
  }

  /** Only a pass makes events. */
  function StepEvents(w: World, op: Op, id: nat, cfg: Config): seq<Event> {
    match op
    case PassOp(now, snap, env) =>
      var (u, ok) := RefreshWorld(w, snap);
      if ok then WalkEvents(u, Ids(u.clients), id, now, cfg, env) else []
    case _ => []
  }

  /** The events of the client in a run, after its first k operations. */
  function RunEvents(ops: seq<Op>, k: nat, id: nat, cfg: Config): seq<Event>
    requires k <= |ops|
  {
    if |ops| == k then []
    else
      var n := |ops| - 1;
      RunEvents(ops[..n], k, id, cfg) + StepEvents(Run(ops[..n], cfg), ops[n], id, cfg)
  }

  // ---- following a client ---------------------------------------------------------------------

  function Lookup(w: World, id: nat): Option<ClientInfo> {
    var i := FirstIndex(w.clients, ById(id));
    if i < |w.clients| then Some(w.clients[i]) else None
  }

  /** A client past authentication has a window that is running; a trusted one may still wait for its first check. */
  predicate Settled(c: ClientInfo, cfg: Config) {
    c.state != Preauthenticated && cfg.rateCheckWindow >= 1
    ==> (if c.state == Trusted then 0 else 1) <= c.windowCounter <= cfg.rateCheckWindow
  }

  /** From client c to client d: one in the same state has the window that the events make of the old one. */
  predicate FollowsTo(c: ClientInfo, d: ClientInfo, events: seq<Event>, cfg: Config) {
    || (c.state == Preauthenticated && Settled(d, cfg))
    || (c.state == Authenticated && d.state == AuthBlocked && Settled(d, cfg))
    || (d.state == c.state && WindowOf(d) == PlayAll(WindowOf(c), events, cfg.rateCheckWindow))
  }

  /** From w to u: the client goes as the events say, or is gone; and only a new one appears. */
  ghost predicate Follows(w: World, u: World, id: nat, events: seq<Event>, cfg: Config) {
    && w.nextId <= u.nextId
    && (Lookup(u, id).Some? ==>
          match Lookup(w, id)
          case None => w.nextId <= id && Settled(Lookup(u, id).value, cfg)
          case Some(c) => FollowsTo(c, Lookup(u, id).value, events, cfg))
  }

  lemma PlayOne(v: Window, e: Event, size: int)
    ensures PlayAll(v, [e], size) == Play(v, e, size)
  {
    assert [e][..0] == [];
  }

  lemma {:induction false} PlayConcat(v: Window, a: seq<Event>, b: seq<Event>, size: int)
    ensures PlayAll(v, a + b, size) == PlayAll(PlayAll(v, a, size), b, size)
    decreases |b|
  {
    if b == [] {
      assert a + b == a;
    } else {
      var n := |b| - 1;
      PlayConcat(v, a, b[..n], size);
      assert (a + b)[..|a + b| - 1] == a + b[..n];
    }
  }

  lemma {:induction false} PlaySettled(v: Window, events: seq<Event>, size: int)
    requires 0 <= v.counter <= size && 1 <= size
    ensures 0 <= PlayAll(v, events, size).counter <= size
    ensures v.counter >= 1 || events != [] ==> PlayAll(v, events, size).counter >= 1
    decreases |events|
  {
    if events != [] {
      PlaySettled(v, events[..|events| - 1], size);
    }
  }

  lemma StaysSettled(c: ClientInfo, d: ClientInfo, events: seq<Event>, cfg: Config)
    requires Settled(c, cfg) && FollowsTo(c, d, events, cfg)
    ensures Settled(d, cfg)
  {
    hide PlayAll;
    if c.state != Preauthenticated && cfg.rateCheckWindow >= 1 {
      PlaySettled(WindowOf(c), events, cfg.rateCheckWindow);
    }
  }

  lemma FollowsToOn(c: ClientInfo, m: ClientInfo, d: ClientInfo, a: seq<Event>, b: seq<Event>, cfg: Config)
    requires FollowsTo(c, m, a, cfg) && FollowsTo(m, d, b, cfg)
    ensures FollowsTo(c, d, a + b, cfg)
  {
    hide PlayAll, Settled;
    PlayConcat(WindowOf(c), a, b, cfg.rateCheckWindow);
    if Settled(m, cfg) {
      StaysSettled(m, d, b, cfg);
    }
  }

  /** Ids grow along the list and are below the next one. */
  predicate Ordered(w: World) {
    IncreasingIds(w.clients) && forall i :: 0 <= i < |w.clients| ==> w.clients[i].id < w.nextId
  }

  lemma OrderedLookup(w: World, id: nat)
    requires Ordered(w)
    ensures Lookup(w, id).Some? ==> id < w.nextId
  {
    hide IncreasingIds;
  }

  lemma FollowsOn(w: World, v: World, u: World, id: nat, a: seq<Event>, b: seq<Event>, cfg: Config)
    requires Follows(w, v, id, a, cfg) && Follows(v, u, id, b, cfg)
    requires Ordered(w)
    ensures Follows(w, u, id, a + b, cfg)
  {
    hide Lookup, FollowsTo, Settled, Ordered;
    OrderedLookup(w, id);
    if Lookup(v, id).Some? && Lookup(u, id).Some? {
      if Lookup(w, id).Some? {
        FollowsToOn(Lookup(w, id).value, Lookup(v, id).value, Lookup(u, id).value, a, b, cfg);
      } else {
        StaysSettled(Lookup(v, id).value, Lookup(u, id).value, b, cfg);
      }
    }
  }

  lemma FollowsNothing(w: World, id: nat, cfg: Config)
    ensures Follows(w, w, id, [], cfg)
  {
  }

  predicate SameWindow(c: ClientInfo, d: ClientInfo) {
    d.state == c.state && WindowOf(d) == WindowOf(c)
  }

  /** Every client but the one at i is in its place, with its state and window; the one at i goes as the events
      say. */
  ghost predicate OneChanges(w: World, u: World, i: nat, events: seq<Event>, cfg: Config)
    requires i < |w.clients|
  {
    && SameIdentities(w.clients, u.clients) && w.nextId == u.nextId
    && (forall j :: 0 <= j < |w.clients| && j != i ==> SameWindow(w.clients[j], u.clients[j]))
    && FollowsTo(w.clients[i], u.clients[i], events, cfg)
  }

  /** The events of a step at the client at i, as far as the client with this id is concerned. */
  function For(w: World, i: nat, id: nat, events: seq<Event>): seq<Event>
    requires i < |w.clients|
  {
    if w.clients[i].id == id then events else []
  }

  lemma FollowsOne(w: World, u: World, id: nat, i: nat, events: seq<Event>, cfg: Config)
    requires i < |w.clients| && Ordered(w) && OneChanges(w, u, i, events, cfg)
    ensures Follows(w, u, id, For(w, i, id, events), cfg) && Ordered(u)
  {
    hide FollowsTo;
    var k := FirstIndex(w.clients, ById(id));
    FirstIndexSame(w.clients, u.clients, ById(id));
    assert forall j :: 0 <= j < |w.clients| ==> SameIdentity(w.clients[j], u.clients[j]);
    if k < |w.clients| && k != i {
      assert SameWindow(w.clients[k], u.clients[k]);
      StandsStill(w.clients[k], u.clients[k], cfg);
    }
  }

  lemma StandsStill(c: ClientInfo, d: ClientInfo, cfg: Config)
    requires SameWindow(c, d)
    ensures FollowsTo(c, d, [], cfg)
  {
  }

  lemma FollowsAll(w: World, u: World, id: nat, cfg: Config)
    requires SameIdentities(w.clients, u.clients) && w.nextId == u.nextId
    requires forall j :: 0 <= j < |w.clients| ==> SameWindow(w.clients[j], u.clients[j])
    ensures Follows(w, u, id, [], cfg)
  {
    FirstIndexSame(w.clients, u.clients, ById(id));
  }

  lemma RemovedOrdered(w: World, u: World, i: nat)
    requires i < |w.clients| && Ordered(w) && u.clients == Removed(w.clients, i) && u.nextId == w.nextId
    ensures IncreasingIds(w.clients) && Ordered(u)
  {
    hide IncreasingIds;
    RemovedIncreasing(w.clients, i);
  }

  lemma FollowsRemoved(w: World, u: World, id: nat, i: nat, cfg: Config)
    requires i < |w.clients| && Ordered(w) && u.clients == Removed(w.clients, i) && u.nextId == w.nextId
    ensures Follows(w, u, id, [], cfg) && Ordered(u)
  {
    hide IncreasingIds, FollowsTo, Ordered;
    RemovedOrdered(w, u, i);
    RemovedLookup(w.clients, i, id);
    var k := FirstIndex(w.clients, ById(id));
    if k < |w.clients| {
      StandsStill(w.clients[k], w.clients[k], cfg);
    }
  }

  lemma RemovedLookup(cs: seq<ClientInfo>, i: nat, id: nat)
    requires i < |cs| && IncreasingIds(cs)
    ensures var k, ds := FirstIndex(cs, ById(id)), Removed(cs, i);
            FirstIndex(ds, ById(id))
            == if cs[i].id == id || k == |cs| then |ds| else if k < i then k else k - 1
  {
    var k, ds := FirstIndex(cs, ById(id)), Removed(cs, i);
    if cs[i].id == id {
      FirstIndexUnique(cs, ById(id), i);
      OthersNot(cs, i);
      FirstIndexUnique(ds, ById(id), |ds|);
    } else {
      FirstIndexUnique(ds, ById(id), if k == |cs| then |ds| else if k < i then k else k - 1);
    }
  }

  lemma OthersNot(cs: seq<ClientInfo>, i: nat)
    requires i < |cs| && IncreasingIds(cs)
    ensures forall j :: 0 <= j < |Removed(cs, i)| ==> Removed(cs, i)[j].id != cs[i].id
  {
  }

  // ---- the parts of a turn --------------------------------------------------------------------

  lemma RefreshChanges(w: World, snap: Snapshot)
    ensures var u := RefreshWorld(w, snap).0;
            && SameIdentities(w.clients, u.clients) && w.nextId == u.nextId
            && forall j :: 0 <= j < |w.clients| ==> SameWindow(w.clients[j], u.clients[j])
  {
    hide Refresh;
    var u := RefreshWorld(w, snap).0;
    assert forall j :: 0 <= j < |w.clients| ==> u.clients[j] == w.clients[j].(counters := u.clients[j].counters);
  }

  lemma BlockChanges(w: World, i: nat, inp: ChangeInput, cfg: Config)
    requires i < |w.clients| && w.clients[i].state == Authenticated
    ensures var events := if ListingsRead(inp) then [] else [FailedThrottle(inp.now)];
            OneChanges(w, Block(w, i, inp, cfg).0, i, events, cfg)
  {
    hide ApplyLines, BlockDownload, BlockUpload;
    var v := Put(w, i, Cell(StartWindow(w.clients[i], inp.now, cfg), w.fw));
    RefreshChanges(v, inp.snap);
    var (u, ok) := RefreshWorld(v, inp.snap);
    assert SameWindow(v.clients[i], u.clients[i]);
    BlockUntouched(CellAt(u, i), cfg);
    BlockUntouched(BlockDownload(CellAt(u, i), cfg), cfg);
    if ok {
      BlockKeepsWindow(CellAt(u, i), cfg);
    } else {
      RestartedBy(w.clients[i], u.clients[i], inp.now, cfg);
    }
  }

  lemma RestartedBy(c: ClientInfo, d: ClientInfo, now: int, cfg: Config)
    requires d.state == c.state && WindowOf(d) == Window(cfg.rateCheckWindow, now)
    ensures FollowsTo(c, d, [FailedThrottle(now)], cfg)
  {
    PlayOne(WindowOf(c), FailedThrottle(now), cfg.rateCheckWindow);
  }

  lemma ThrottleChanges(w: World, i: nat, dir: Direction, inp: ChangeInput, cfg: Config)
    requires i < |w.clients|
    ensures OneChanges(w, Throttle(w, i, dir, inp, cfg), i, ThrottleEvents(w.clients[i], dir, inp, cfg), cfg)
  {
    hide Block, PlayAll;
    var c := w.clients[i];
    StandsStill(c, c, cfg);
    if ThrottleDue(c, dir, cfg) {
      var v := Put(w, i, Cell(WithRate(c, dir, ThrottleRate(cfg, dir)), w.fw));
      StandsStill(c, v.clients[i], cfg);
      if c.state == Authenticated {
        BlockChanges(v, i, inp, cfg);
      }
    }
  }

  lemma CheckChanges(w: World, i: nat, now: int, cfg: Config)
    requires i < |w.clients|
    ensures OneChanges(w, Put(w, i, CheckRates(CellAt(w, i), now, cfg)), i, [Check(now)], cfg)
  {
    hide CheckRates;
    RatesKeepCounters(CellAt(w, i), now, cfg);
    TickWindow(CellAt(w, i), now, cfg);
    PlayOne(WindowOf(w.clients[i]), Check(now), cfg.rateCheckWindow);
  }

  lemma DeauthFollows(w: World, i: nat, id: nat, cfg: Config)
    requires i < |w.clients| && Ordered(w)
    ensures Follows(w, Deauth(w, i).0, id, [], cfg) && Ordered(Deauth(w, i).0)
  {
    hide Follows;
    DeauthExact(w, i);
    if w.clients[i].state == Authenticated {
      FollowsRemoved(w, Deauth(w, i).0, id, i, cfg);
    } else {
      FollowsNothing(w, id, cfg);
    }
  }

  lemma ForConcat(w: World, u: World, i: nat, id: nat, a: seq<Event>, b: seq<Event>)
    requires i < |w.clients| && SameIdentities(w.clients, u.clients)
    ensures For(w, i, id, a + b) == For(w, i, id, a) + For(u, i, id, b)
    ensures For(w, i, id, a) == For(w, i, id, a) + []
  {
    assert SameIdentity(w.clients[i], u.clients[i]);
  }

  lemma ThrottleFollows(w: World, i: nat, id: nat, dir: Direction, inp: ChangeInput, cfg: Config)
    requires i < |w.clients| && Ordered(w)
    ensures var u := Throttle(w, i, dir, inp, cfg);
            && Follows(w, u, id, For(w, i, id, ThrottleEvents(w.clients[i], dir, inp, cfg)), cfg)
            && Ordered(u) && SameIdentities(w.clients, u.clients)
  {
    hide Throttle, ThrottleEvents, Follows, FollowsTo;
    ThrottleChanges(w, i, dir, inp, cfg);
    FollowsOne(w, Throttle(w, i, dir, inp, cfg), id, i, ThrottleEvents(w.clients[i], dir, inp, cfg), cfg);
  }

  lemma LateFollows(w: World, i: nat, id: nat, c: ClientInfo, now: int, cfg: Config, env: Environment)
    requires i < |w.clients| && Ordered(w)
    ensures Follows(w, LateTurn(w, i, c, now, cfg, env), id, For(w, i, id, LateEvents(w, i, c, now, cfg, env)), cfg)
  {
    hide Throttle, Deauth, CheckRates, ThrottleEvents, Follows, Ordered, OneChanges;
    DeauthFollows(w, i, id, cfg);
    if !CutOffDue(w.clients[i], Upload, cfg) {
      var inp := env(c.id, Upload);
      var v := Throttle(w, i, Upload, inp, cfg);
      var a := ThrottleEvents(w.clients[i], Upload, inp, cfg);
      ThrottleFollows(w, i, id, Upload, inp, cfg);
      ForConcat(w, v, i, id, a, [Check(now)]);
      if c.state == Authenticated && Idle(c, cfg.authIdleSecs, now) {
        DeauthFollows(v, i, id, cfg);
        FollowsOn(w, v, Deauth(v, i).0, id, For(w, i, id, a), [], cfg);
        assert a + [] == a;
      } else if v.clients[i].state != Preauthenticated {
        var u := Put(v, i, CheckRates(CellAt(v, i), now, cfg));
        CheckChanges(v, i, now, cfg);
        FollowsOne(v, u, id, i, [Check(now)], cfg);
        FollowsOn(w, v, u, id, For(w, i, id, a), For(v, i, id, [Check(now)]), cfg);
      } else {
        assert a + [] == a;
      }
    }
  }

  lemma TurnFollows(w: World, i: nat, id: nat, now: int, cfg: Config, env: Environment)
    requires i < |w.clients| && Ordered(w)
    ensures Follows(w, PassTurn(w, i, now, cfg, env), id, For(w, i, id, TurnEvents(w, i, now, cfg, env)), cfg)
  {
    hide Throttle, Deauth, LateTurn, LateEvents, ThrottleEvents, Follows, Ordered;
    var c := w.clients[i];
    DeauthFollows(w, i, id, cfg);
    FollowsNothing(w, id, cfg);
    if c.state == Preauthenticated {
      if Idle(c, cfg.preauthIdleSecs, now) {
        assert DeleteAt(w, i).clients == Removed(w.clients, i);
        FollowsRemoved(w, DeleteAt(w, i), id, i, cfg);
      }
    } else if !SessionOver(c, now) && !CutOffDue(c, Download, cfg) {
      var inp := env(c.id, Download);
      var v := Throttle(w, i, Download, inp, cfg);
      var a, b := ThrottleEvents(c, Download, inp, cfg), LateEvents(v, i, c, now, cfg, env);
      ThrottleFollows(w, i, id, Download, inp, cfg);
      LateFollows(v, i, id, c, now, cfg, env);
      ForConcat(w, v, i, id, a, b);
      FollowsOn(w, v, LateTurn(v, i, c, now, cfg, env), id, For(w, i, id, a), For(v, i, id, b), cfg);
    }
  }

  // ---- the operations -------------------------------------------------------------------------

  lemma {:induction false} WalkFollows(w: World, ids: seq<nat>, id: nat, now: int, cfg: Config, env: Environment)
    requires Good(w, cfg)
    ensures Follows(w, PassWalk(w, ids, now, cfg, env), id, WalkEvents(w, ids, id, now, cfg, env), cfg)
    decreases |ids|
  {
    hide Good, PassTurn, TurnEvents, Follows, Ordered;
    if ids == [] {
      FollowsNothing(w, id, cfg);
    } else {
      var i := FirstIndex(w.clients, ById(ids[0]));
      var v := PassClient(w, ids[0], now, cfg, env);
      var rest := WalkEvents(v, ids[1..], id, now, cfg, env);
      PassClientGood(w, ids[0], now, cfg, env);
      WalkFollows(v, ids[1..], id, now, cfg, env);
      GoodOrdered(w, cfg);
      if i < |w.clients| {
        TurnFollows(w, i, id, now, cfg, env);
      } else {
        FollowsNothing(w, id, cfg);
      }
      FollowsOn(w, v, PassWalk(v, ids[1..], now, cfg, env), id,
                if ids[0] == id && i < |w.clients| then TurnEvents(w, i, now, cfg, env) else [], rest, cfg);
    }
  }

  lemma GoodOrdered(w: World, cfg: Config)
    requires Good(w, cfg)
    ensures Ordered(w)
  {
    hide MemoryOk, ClientsOk, NoStaleRules, Conserved;
  }

  lemma PassClientGood(w: World, id: nat, now: int, cfg: Config, env: Environment)
    requires Good(w, cfg)
    ensures Good(PassClient(w, id, now, cfg, env), cfg)
  {
    hide Good, PassTurn;
    var i := FirstIndex(w.clients, ById(id));
    if i < |w.clients| {
      PassSteps.PassTurnGood(w, i, now, cfg, env);
    }
  }

  lemma PassFollows(w: World, now: int, snap: Snapshot, env: Environment, id: nat, cfg: Config)
    requires Good(w, cfg)
    ensures Follows(w, Pass(w, now, snap, cfg, env), id, StepEvents(w, PassOp(now, snap, env), id, cfg), cfg)
  {
    hide Good, PassWalk, WalkEvents, Follows, Refresh, Ordered;
    var (u, ok) := RefreshWorld(w, snap);
    RefreshChanges(w, snap);
    FollowsAll(w, u, id, cfg);
    GoodOrdered(w, cfg);
    if ok {
      Reachable.RefreshWorldGood(w, snap, cfg);
      WalkFollows(u, Ids(u.clients), id, now, cfg, env);
      FollowsOn(w, u, PassWalk(u, Ids(u.clients), now, cfg, env), id, [],
                WalkEvents(u, Ids(u.clients), id, now, cfg, env), cfg);
      assert [] + WalkEvents(u, Ids(u.clients), id, now, cfg, env) == WalkEvents(u, Ids(u.clients), id, now, cfg, env);
    }
  }

  lemma {:induction false} DeauthIdsFollows(w: World, ids: seq<nat>, id: nat, cfg: Config)
    requires Ordered(w)
    ensures Follows(w, DeauthIds(w, ids), id, [], cfg)
    decreases |ids|
  {
    hide Deauth, Follows, Ordered;
    if ids == [] {
      FollowsNothing(w, id, cfg);
    } else {
      var v := DeauthClient(w, ids[0]).0;
      DeauthClientFollows(w, ids[0], id, cfg);
      DeauthIdsFollows(v, ids[1..], id, cfg);
      FollowsOn(w, v, DeauthIds(v, ids[1..]), id, NOTHING, NOTHING, cfg);
      assert NOTHING + NOTHING == NOTHING;
    }
  }

  lemma DeauthClientFollows(w: World, which: nat, id: nat, cfg: Config)
    requires Ordered(w)
    ensures Follows(w, DeauthClient(w, which).0, id, [], cfg) && Ordered(DeauthClient(w, which).0)
  {
    hide Deauth, Follows, Ordered;
    var i := FirstIndex(w.clients, ById(which));
    if i < |w.clients| {
      DeauthFollows(w, i, id, cfg);
    } else {
      FollowsNothing(w, id, cfg);
    }
  }

  /** An authentication changes its own client, which is preauthenticated, and the counters of others. */
  lemma AuthorizeChanges(w: World, i: nat, inp: ChangeInput, cfg: Config)
    requires i < |w.clients| && w.clients[i].state == Preauthenticated
    ensures OneChanges(w, Authorize(w, i, inp, cfg).0, i, [], cfg)
  {
    hide Refresh, Granted, AuthDownload, AuthUpload, Authenticate, Deauthenticate;
    var x := Cell(Granted(w.clients[i].(sessionEndExplicit := false), w.clients[i].sessionEndExplicit, inp, cfg),
                  Authenticate(w.fw, w.clients[i].ip, w.clients[i].mac));
    GrantedKeeps(w.clients[i].(sessionEndExplicit := false), w.clients[i].sessionEndExplicit, inp, cfg);
    RefreshChanges(Put(w, i, x), inp.snap);
    var u := Admit(w, i, inp, cfg).0;
    assert SameIdentity(Put(w, i, x).clients[i], u.clients[i]);
    assert SameWindow(Put(w, i, x).clients[i], u.clients[i]);
    AuthUntouched(CellAt(u, i), cfg);
    AuthKeepsWindow(CellAt(u, i), cfg);
  }

  lemma GrantedKeeps(c: ClientInfo, explicitEnd: bool, inp: ChangeInput, cfg: Config)
    ensures var d := Granted(c, explicitEnd, inp, cfg);
            SameIdentity(d, c) && d.state == c.state && d.windowCounter == cfg.rateCheckWindow
  {
  }

  lemma AuthUntouched(x: Cell, cfg: Config)
    ensures SameIdentity(AuthUpload(AuthDownload(x, cfg), cfg).c, x.c)
  {
    hide LimitDownload, LimitUpload;
    LimitUntouched(x, true, cfg);
    LimitUntouched(AuthDownload(x, cfg), true, cfg);
  }

  lemma AuthClientFollows(w: World, which: nat, inp: ChangeInput, id: nat, cfg: Config)
    requires Ordered(w)
    ensures Follows(w, AuthClient(w, which, inp, cfg).0, id, [], cfg)
  {
    hide Authorize, AuthClient, Ordered, OneChanges;
    var i := FirstIndex(w.clients, ById(which));
    Reachable.AuthClientIs(w, which, inp, cfg);
    FollowsNothing(w, id, cfg);
    if i < |w.clients| && w.clients[i].state == Preauthenticated {
      var u := Authorize(w, i, inp, cfg).0;
      AuthorizeChanges(w, i, inp, cfg);
      FollowsOne(w, u, id, i, [], cfg);
    }
  }

  /** A change of a preauthenticated client's values. */
  lemma PutFollows(w: World, i: nat, c: ClientInfo, id: nat, cfg: Config)
    requires i < |w.clients| && Ordered(w) && w.clients[i].state == c.state == Preauthenticated
    requires SameIdentity(w.clients[i], c)
    ensures Follows(w, Put(w, i, Cell(c, w.fw)), id, [], cfg) && Ordered(Put(w, i, Cell(c, w.fw)))
  {
    hide Follows, Ordered;
    FollowsOne(w, Put(w, i, Cell(c, w.fw)), id, i, [], cfg);
  }

  lemma ControlAuthFollows(w: World, which: nat, p: Preset, inp: ChangeInput, id: nat, cfg: Config)
    requires Ordered(w)
    ensures Follows(w, ControlAuth(w, which, p, inp, cfg), id, [], cfg)
  {
    hide Follows, Ordered, AuthClient;
    var i := FirstIndex(w.clients, ById(which));
    FollowsNothing(w, id, cfg);
    if i < |w.clients| && w.clients[i].state == Preauthenticated {
      var v := Put(w, i, Cell(WithPreset(w.clients[i], p), w.fw));
      PutFollows(w, i, WithPreset(w.clients[i], p), id, cfg);
      AuthClientFollows(v, which, inp, id, cfg);
      FollowsOn(w, v, AuthClient(v, which, inp, cfg).0, id, NOTHING, NOTHING, cfg);
      assert NOTHING + NOTHING == NOTHING;
    }
  }

  /** A client appended has a new id. */
  lemma AppendFollows(w: World, c: ClientInfo, id: nat, cfg: Config)
    requires c.id == w.nextId && Settled(c, cfg) && Ordered(w)
    ensures Follows(w, Append(w, c), id, [], cfg) && Ordered(Append(w, c))
  {
    var k := FirstIndex(w.clients, ById(id));
    FirstIndexUnique(Append(w, c).clients, ById(id), if k < |w.clients| || id == c.id then k else |w.clients| + 1);
    if k < |w.clients| {
      StandsStill(w.clients[k], w.clients[k], cfg);
    }
  }

  lemma SameClientsFollow(w: World, u: World, id: nat, cfg: Config)
    requires u.clients == w.clients && u.nextId == w.nextId
    ensures Follows(w, u, id, [], cfg)
  {
  }

  lemma AddFollows(w: World, req: AddRequest, id: nat, cfg: Config)
    requires Ordered(w)
    ensures Follows(w, AddPinned(w, req, cfg), id, [], cfg) && Follows(w, AddUnpinned(w, req, cfg), id, [], cfg)
  {
    hide Follows, Append;
    var (u, at) := FindOrAppend(w, req, cfg);
    FollowsNothing(w, id, cfg);
    if u != w {
      var trusted := MacLists.IsTrusted(req.trustedMacs, req.mac);
      AppendFollows(w, NewClient(w.nextId, req.mac, req.ip, trusted, req.at), id, cfg);
    }
    if at.Some? && at.value < |u.clients| {
      SameClientsFollow(u, PinAt(u, at.value), id, cfg);
      FollowsOn(w, u, PinAt(u, at.value), id, NOTHING, NOTHING, cfg);
      assert NOTHING + NOTHING == NOTHING;
    }
  }

  /** Every operation follows every client there is. */
  lemma StepFollows(w: World, op: Op, id: nat, cfg: Config)
    requires Good(w, cfg)
    ensures Follows(w, Step(w, op, cfg), id, StepEvents(w, op, id, cfg), cfg)
  {
    hide Good, Follows, AddPinned, AddUnpinned, AuthClient, ControlAuth, DeauthClient, DeauthIds, Pass, WalkEvents,
         Ordered;
    GoodOrdered(w, cfg);
    FollowsNothing(w, id, cfg);
    match op
    case FindAndPinOp(mac, ip) => SameClientsFollow(w, FindAndPin(w, mac, ip), id, cfg);
    case AddPinnedOp(req) => AddFollows(w, req, id, cfg);
    case AddUnpinnedOp(req) => AddFollows(w, req, id, cfg);
    case UnpinOp(pinned) => SameClientsFollow(w, Step(w, op, cfg), id, cfg);
    case AuthOp(which, inp) => AuthClientFollows(w, which, inp, id, cfg);
    case ControlAuthOp(which, preset, inp) => ControlAuthFollows(w, which, preset, inp, id, cfg);
    case HttpResetOp(which, start, end) =>
      var i := FirstIndex(w.clients, ById(which));
      if i < |w.clients| && w.clients[i].state == Preauthenticated {
        PutFollows(w, i, Cleared(w.clients[i], start, end), id, cfg);
      }
    case DeauthOp(which) => DeauthClientFollows(w, which, id, cfg);
    case DeauthAllOp => DeauthIdsFollows(w, Ids(w.clients), id, cfg);
    case PassOp(now, snap, env) => PassFollows(w, now, snap, env, id, cfg);
  }

  lemma {:induction false} RunFollows(ops: seq<Op>, k: nat, id: nat, cfg: Config)
    requires k <= |ops|
    ensures Follows(Run(ops[..k], cfg), Run(ops, cfg), id, RunEvents(ops, k, id, cfg), cfg)
    decreases |ops|
  {
    hide Step, StepEvents, Follows, Good, Ordered;
    RunGood(ops[..k], cfg);
    GoodOrdered(Run(ops[..k], cfg), cfg);
    if |ops| == k {
      assert ops[..k] == ops;
      FollowsNothing(Run(ops, cfg), id, cfg);
    } else {
      var n := |ops| - 1;
      var before := ops[..n];
      assert before[..k] == ops[..k];
      RunFollows(before, k, id, cfg);
      RunGood(before, cfg);
      StepFollows(Run(before, cfg), ops[n], id, cfg);
      FollowsOn(Run(ops[..k], cfg), Run(before, cfg), Run(ops, cfg), id,
                RunEvents(before, k, id, cfg), StepEvents(Run(before, cfg), ops[n], id, cfg), cfg);
    }
  }

  // ---- the cadence ----------------------------------------------------------------------------

  /** The times of the rate checks. */
  function Checks(events: seq<Event>): seq<int> {
    if events == [] then []
    else
      var last := events[|events| - 1];
      Checks(events[..|events| - 1]) + if last.Check? then [last.at] else []
  }

  function Failures(events: seq<Event>): nat {
    if events == [] then 0
    else Failures(events[..|events| - 1]) + if events[|events| - 1].FailedThrottle? then 1 else 0
  }

  predicate Restarts(v: Window, e: Event) {
    e.FailedThrottle? || v.counter <= 1
  }

  /** How many windows are started. */
  function Resets(v: Window, events: seq<Event>, size: int): nat {
    if events == [] then 0
    else
      var n := |events| - 1;
      Resets(v, events[..n], size) + if Restarts(PlayAll(v, events[..n], size), events[n]) then 1 else 0
  }

  /** How many checks the current window has had. */
  function Used(v: Window, size: int): int {
    size - v.counter
  }

  /** Windows started and checks used, against the checks there have been: each failed throttle loses at least one. */
  lemma {:induction false} Accounts(v: Window, events: seq<Event>, size: int)
    requires 1 <= v.counter <= size
    ensures var u := PlayAll(v, events, size);
            var lost := Resets(v, events, size) * size + Used(u, size) - Used(v, size) - |Checks(events)|;
            1 <= u.counter <= size && lost >= Failures(events) && (Failures(events) == 0 ==> lost == 0)
    decreases |events|
  {
    if events != [] {
      var n := |events| - 1;
      Accounts(v, events[..n], size);
      Distribute(Resets(v, events[..n], size), size);
    }
  }

  /** The start of a window that has had some checks after it was started by a check. */
  function StartBefore(v: Window, checks: seq<int>, used: nat): int {
    if |checks| <= used then v.start else checks[|checks| - used - 1]
  }

  /** Without a failed throttle a window starts at the check that used up the one before. */
  lemma {:induction false} StartsAtCheck(v: Window, events: seq<Event>, size: int)
    requires 1 <= v.counter <= size && Failures(events) == 0
    ensures var u := PlayAll(v, events, size);
            1 <= u.counter <= size && u.start == StartBefore(v, Checks(events), Used(u, size))
    decreases |events|
  {
    if events != [] {
      StartsAtCheck(v, events[..|events| - 1], size);
    }
  }

  lemma CountsDecide(resets: nat, used: nat, total: nat, lost: int, failures: nat, size: int)
    requires resets * size + used == total + lost && used < size
    requires lost >= failures && (failures == 0 ==> lost == 0)
    ensures used == total % size && resets == total / size <==> failures == 0
  {
    if failures == 0 {
      DivModUnique(total, size, resets, used);
    }
  }

  /** The cadence in terms of the events alone. */
  lemma EventCadence(v: Window, events: seq<Event>, size: int)
    requires 1 <= v.counter <= size
    ensures var u := PlayAll(v, events, size);
            var total := Used(v, size) + |Checks(events)|;
            && (u.counter == size - total % size && Resets(v, events, size) == total / size <==> Failures(events) == 0)
            && (Failures(events) == 0 ==> u.start == StartBefore(v, Checks(events), total % size))
  {
    hide PlayAll, Checks, Resets, Failures, StartBefore;
    var u := PlayAll(v, events, size);
    var total := Used(v, size) + |Checks(events)|;
    var r := Resets(v, events, size);
    Accounts(v, events, size);
    CountsDecide(r, Used(u, size), total, r * size + Used(u, size) - total, Failures(events), size);
    if Failures(events) == 0 {
      StartsAtCheck(v, events, size);
    }
  }

  /** The windows of a client over any stretch of any run in which it is listed and keeps its state. After n rate
      checks, counted from the start of the window it is in at first, n / W windows have been started, the current
      one has had n % W checks, and it started at the check before those. Exactly a throttle that was due and failed
      breaks this. A trusted client must have had its first check. */
  lemma Cadence(ops: seq<Op>, k: nat, id: nat, cfg: Config)
    requires k <= |ops| && cfg.rateCheckWindow >= 1
    requires Lookup(Run(ops[..k], cfg), id).Some? && Lookup(Run(ops, cfg), id).Some?
    requires var c := Lookup(Run(ops[..k], cfg), id).value;
             && Lookup(Run(ops, cfg), id).value.state == c.state != Preauthenticated
             && (c.state == Trusted ==> c.windowCounter >= 1)
    ensures var c, d := Lookup(Run(ops[..k], cfg), id).value, Lookup(Run(ops, cfg), id).value;
            var events, size := RunEvents(ops, k, id, cfg), cfg.rateCheckWindow;
            var n := Used(WindowOf(c), size) + |Checks(events)|;
            && (d.windowCounter == size - n % size && Resets(WindowOf(c), events, size) == n / size
                <==> Failures(events) == 0)
            && (Failures(events) == 0 ==> d.windowStart == StartBefore(WindowOf(c), Checks(events), n % size))
  {
    hide Run, RunEvents, Lookup, Checks, Failures, Resets, PlayAll, StartBefore;
    var c := Lookup(Run(ops[..k], cfg), id).value;
    RunFollows(ops, k, id, cfg);
    SettledInRun(ops[..k], id, cfg);
    EventCadence(WindowOf(c), RunEvents(ops, k, id, cfg), cfg.rateCheckWindow);
  }

  /** In every state of every run the window of a client past authentication is running. */
  lemma SettledInRun(ops: seq<Op>, id: nat, cfg: Config)
    requires Lookup(Run(ops, cfg), id).Some?
    ensures Settled(Lookup(Run(ops, cfg), id).value, cfg)
  {
    RunFollows(ops, 0, id, cfg);
    assert Run(ops[..0], cfg) == INITIAL;
    assert Lookup(INITIAL, id).None?;
  }

  // ---- runs in which no throttle fails --------------------------------------------------------

  /** Whatever a pass reads to throttle this client, it can read; or there is no throttle rate. */
  predicate ReadableFor(op: Op, id: nat, cfg: Config) {
    op.PassOp? ==> forall dir :: ThrottleRate(cfg, dir) == 0 || ListingsRead(op.env(id, dir))
  }

  lemma {:induction false} FailuresConcat(a: seq<Event>, b: seq<Event>)
    ensures Failures(a + b) == Failures(a) + Failures(b)
    decreases |b|
  {
    if b == [] {
      assert a + b == a;
    } else {
      FailuresConcat(a, b[..|b| - 1]);
      assert (a + b)[..|a + b| - 1] == a + b[..|b| - 1];
    }
  }

  lemma TurnReadable(w: World, i: nat, now: int, cfg: Config, env: Environment)
    requires i < |w.clients|
    requires forall dir :: ThrottleRate(cfg, dir) == 0 || ListingsRead(env(w.clients[i].id, dir))
    ensures Failures(TurnEvents(w, i, now, cfg, env)) == 0
  {
    hide Throttle, Deauth;
    assert [Check(now)][..0] == [];
  }

  lemma {:induction false} WalkReadable(w: World, ids: seq<nat>, id: nat, now: int, cfg: Config, env: Environment)
    requires forall dir :: ThrottleRate(cfg, dir) == 0 || ListingsRead(env(id, dir))
    ensures Failures(WalkEvents(w, ids, id, now, cfg, env)) == 0
    decreases |ids|
  {
    hide PassTurn, TurnEvents, ListingsRead;
    if ids != [] {
      var i := FirstIndex(w.clients, ById(ids[0]));
      var v := PassClient(w, ids[0], now, cfg, env);
      WalkReadable(v, ids[1..], id, now, cfg, env);
      if ids[0] == id && i < |w.clients| {
        TurnReadable(w, i, now, cfg, env);
      }
      FailuresConcat(if ids[0] == id && i < |w.clients| then TurnEvents(w, i, now, cfg, env) else [],
                     WalkEvents(v, ids[1..], id, now, cfg, env));
    }
  }

  /** So the cadence holds whenever the passes of the stretch can read the listings they ask for. */
  lemma {:induction false} ReadableNeverFails(ops: seq<Op>, k: nat, id: nat, cfg: Config)
    requires k <= |ops| && forall j :: k <= j < |ops| ==> ReadableFor(ops[j], id, cfg)
    ensures Failures(RunEvents(ops, k, id, cfg)) == 0
    decreases |ops|
  {
    hide Run, Step, WalkEvents, Refresh, ListingsRead;
    if |ops| > k {
      var n := |ops| - 1;
      var op, w := ops[n], Run(ops[..n], cfg);
      ReadableNeverFails(ops[..n], k, id, cfg);
      if op.PassOp? {
        var u := RefreshWorld(w, op.snap).0;
        WalkReadable(u, Ids(u.clients), id, op.now, cfg, op.env);
      }
      FailuresConcat(RunEvents(ops[..n], k, id, cfg), StepEvents(w, op, id, cfg));
    }
  }
}
