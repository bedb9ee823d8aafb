/** What one periodic pass leaves of the list, as a pure predicate on each client. */
module PassFilter {
  import opened Basics
  import opened Clients
  import opened Firewall
  import opened RateLimit
  import opened CounterRefresh
  import opened Session
  import opened Invariants
  import opened NodeMemory

  /** The fate of a client in a pass: None when it is deleted, else the state it ends in. Once throttled it
      is AuthBlocked, and neither the upload quota nor the idle time can remove it any more. */
  function Fate(c: ClientInfo, now: int, cfg: Config): Option<Mark> {
    match c.state
    case Preauthenticated => if Idle(c, cfg.preauthIdleSecs, now) then None else Some(Preauthenticated)
    case AuthBlocked => Some(AuthBlocked)
    case Trusted => Some(Trusted)
    case Authenticated =>
      if SessionOver(c, now) || CutOffDue(c, Download, cfg) then None
      else if ThrottleDue(c, Download, cfg) then Some(AuthBlocked)
      else if CutOffDue(c, Upload, cfg) then None
      else if ThrottleDue(c, Upload, cfg) then Some(AuthBlocked)
      else if Idle(c, cfg.authIdleSecs, now) then None
      else Some(Authenticated)
  }

  /** What a client with this fate adds to the list of survivors. */
  function Entry(id: nat, fate: Option<Mark>): seq<(nat, Mark)> {
    if fate.None? then [] else [(id, fate.value)]
  }

  /** The surviving clients in list order, each with its final state. */
  function Survivors(cs: seq<ClientInfo>, now: int, cfg: Config): seq<(nat, Mark)> {
    if cs == [] then [] else Entry(cs[0].id, Fate(cs[0], now, cfg)) + Survivors(cs[1..], now, cfg)
  }

  function IdStates(cs: seq<ClientInfo>): (r: seq<(nat, Mark)>)
    ensures |r| == |cs|
    ensures forall i :: 0 <= i < |cs| ==> r[i] == (cs[i].id, cs[i].state)
  {
    seq(|cs|, i requires 0 <= i < |cs| => (cs[i].id, cs[i].state))
  }

  /** Every listing read during the pass is the one read at its start. */
  ghost predicate FixedSnapshot(env: Environment, snap: Snapshot) {
    snap.outgoing.Some? && snap.incoming.Some? && forall id, dir :: env(id, dir).snap == snap
  }

  /** The pass throttles this client, and reads the counters again to do so. */
  predicate Throttled(c: ClientInfo, now: int, cfg: Config) {
    c.state == Authenticated && Fate(c, now, cfg) == Some(AuthBlocked)
  }

  // ---- one turn -------------------------------------------------------------------------------

  /** The client at i is in the given state, and the others are as given. */
  ghost predicate Moved(w: World, u: World, i: nat, state: Mark, others: seq<ClientInfo>)
    requires i < |w.clients|
  {
    && |u.clients| == |w.clients| == |others|
    && u.clients[i].id == w.clients[i].id && u.clients[i].ip == w.clients[i].ip && u.clients[i].state == state
    && forall j :: 0 <= j < |w.clients| && j != i ==> u.clients[j] == others[j]
  }

  /** Limiter actions leave alone who the client is, its state, byte counts, upload quota and upload rate. */
  predicate Untouched(c: ClientInfo, d: ClientInfo) {
    SameIdentity(c, d) && d.state == c.state && d.counters == c.counters
    && d.uploadQuota == c.uploadQuota && d.uploadRate == c.uploadRate
  }

  lemma LimitUntouched(x: Cell, enable: bool, cfg: Config)
    ensures Untouched(x.c, LimitDownload(x, enable, cfg).c)
    ensures Untouched(x.c, LimitUpload(x, enable, cfg).c)
  {
    hide DownloadLimit, UploadLimit, ReplaceDownload, ReplaceUpload;
  }

  lemma ExceedUntouched(x: Cell, cfg: Config)
    ensures Untouched(x.c, ExceedDownload(x, cfg).c)
    ensures Untouched(x.c, ExceedUpload(x, cfg).c)
  {
    hide LimitDownload, LimitUpload;
    LimitUntouched(x, true, cfg);
  }

  lemma ExpireUntouched(x: Cell, cfg: Config)
    ensures Untouched(x.c, ExpireDownload(x, cfg).c)
    ensures Untouched(x.c, ExpireUpload(x, cfg).c)
  {
    hide LimitDownload, LimitUpload;
    LimitUntouched(x, false, cfg);
    LimitUntouched(LimitDownload(x, false, cfg), true, cfg);
    LimitUntouched(LimitUpload(x, false, cfg), true, cfg);
  }

  lemma BlockUntouched(x: Cell, cfg: Config)
    ensures Untouched(x.c, BlockDownload(x, cfg).c)
    ensures Untouched(x.c, BlockUpload(x, cfg).c)
  {
    hide LimitDownload, LimitUpload;
    LimitUntouched(x, true, cfg);
  }

  /** Changing one client's values does not change what a refresh does to the others. */
  lemma RefreshOthers(cs: seq<ClientInfo>, ds: seq<ClientInfo>, snap: Snapshot, i: nat)
    requires i < |cs| && SameIdentities(cs, ds)
    requires forall j :: 0 <= j < |cs| && j != i ==> ds[j] == cs[j]
    ensures forall j :: 0 <= j < |cs| && j != i ==> Refresh(ds, snap).0[j] == Refresh(cs, snap).0[j]
  {
    hide Refresh;
    forall j | 0 <= j < |cs| && j != i
      ensures Refresh(ds, snap).0[j] == Refresh(cs, snap).0[j]
    {
      RefreshAt(cs, snap, j);
      RefreshAt(ds, snap, j);
      FirstIndexSame(cs, ds, ByIp(cs[j].ip));
    }
  }

  lemma BlockExact(w: World, i: nat, inp: ChangeInput, cfg: Config)
    requires i < |w.clients|
    requires inp.snap.outgoing.Some? && inp.snap.incoming.Some?
    ensures Moved(w, Block(w, i, inp, cfg).0, i, AuthBlocked, Refresh(w.clients, inp.snap).0)
  {
    hide ApplyLines, BlockDownload, BlockUpload;
    var v := Put(w, i, Cell(StartWindow(w.clients[i], inp.now, cfg), w.fw));
    RefreshOthers(w.clients, v.clients, inp.snap, i);
    var r := RefreshWorld(v, inp.snap).0;
    BlockUntouched(CellAt(r, i), cfg);
    BlockUntouched(BlockDownload(CellAt(r, i), cfg), cfg);
  }

  /** Throttling an authenticated client blocks it; on any other client only the rate changes. */
  lemma ThrottleExact(w: World, i: nat, dir: Direction, inp: ChangeInput, cfg: Config)
    requires i < |w.clients| && w.clients[i].state != Preauthenticated
    requires inp.snap.outgoing.Some? && inp.snap.incoming.Some?
    ensures var u, c := Throttle(w, i, dir, inp, cfg), w.clients[i];
            && (!ThrottleDue(c, dir, cfg) ==> u == w)
            && if c.state == Authenticated && ThrottleDue(c, dir, cfg)
               then Moved(w, u, i, AuthBlocked, Refresh(w.clients, inp.snap).0)
               else Moved(w, u, i, c.state, w.clients)
  {
    hide Block, Refresh;
    if ThrottleDue(w.clients[i], dir, cfg) {
      var v := Put(w, i, Cell(WithRate(w.clients[i], dir, ThrottleRate(cfg, dir)), w.fw));
      if w.clients[i].state == Authenticated {
        BlockExact(v, i, inp, cfg);
        RefreshOthers(w.clients, v.clients, inp.snap, i);
      }
    }
  }

  lemma RatesKeepCounters(x: Cell, now: int, cfg: Config)
    ensures var c := CheckRates(x, now, cfg).c;
            && SameIdentity(c, x.c) && c.state == x.c.state && c.uploadQuota == x.c.uploadQuota
            && c.uploadRate == x.c.uploadRate
            && Bytes(c.counters, Upload) == Bytes(x.c.counters, Upload)
            && Bytes(c.counters, Download) == Bytes(x.c.counters, Download)
  {
    hide ExceedDownload, ExceedUpload, ExpireDownload, ExpireUpload, AverageRate;
    var a := x.(c := Measure(x.c, now));
    ExceedUntouched(a, cfg);
    ExceedUntouched(ExceedDownload(a, cfg), cfg);
    var y := Exceed(a, cfg);
    var e := y.(c := StartWindow(y.c, now, cfg));
    ExpireUntouched(e, cfg);
    ExpireUntouched(ExpireDownload(e, cfg), cfg);
  }

  lemma DeauthExact(w: World, i: nat)
    requires i < |w.clients|
    ensures if w.clients[i].state == Authenticated then Deauth(w, i).0.clients == Removed(w.clients, i)
            else Deauth(w, i).0 == w
  {
  }

  lemma CheckRatesMoved(w: World, i: nat, now: int, cfg: Config)
    requires i < |w.clients|
    ensures Moved(w, Put(w, i, CheckRates(CellAt(w, i), now, cfg)), i, w.clients[i].state, w.clients)
  {
    hide CheckRates;
    RatesKeepCounters(CellAt(w, i), now, cfg);
  }

  /** The late part of a turn leaves a throttled or trusted client where it is. */
  lemma StaysPut(w: World, i: nat, c: ClientInfo, now: int, snap: Snapshot, cfg: Config, env: Environment)
    requires i < |w.clients| && FixedSnapshot(env, snap)
    requires w.clients[i].state == AuthBlocked || w.clients[i].state == Trusted
    ensures Moved(w, LateTurn(w, i, c, now, cfg, env), i, w.clients[i].state, w.clients)
  {
    hide Throttle, Deauth, CheckRates;
    DeauthExact(w, i);
    var v := Throttle(w, i, Upload, env(c.id, Upload), cfg);
    ThrottleExact(w, i, Upload, env(c.id, Upload), cfg);
    DeauthExact(v, i);
    CheckRatesMoved(v, i, now, cfg);
  }

  /** None: the client at i is gone. Some: it is in that state. The others are as they were, except that a
      throttled client has had the counters of all of them read again. */
  ghost predicate Ended(w: World, u: World, i: nat, snap: Snapshot, now: int, cfg: Config)
    requires i < |w.clients|
  {
    match Fate(w.clients[i], now, cfg)
    case None => u.clients == Removed(w.clients, i)
    case Some(state) =>
      Moved(w, u, i, state, if Throttled(w.clients[i], now, cfg) then Refresh(w.clients, snap).0 else w.clients)
  }

  /** The late part of the turn of an authenticated client that was not throttled for its download quota. */
  lemma LateTurnExact(w: World, i: nat, now: int, snap: Snapshot, cfg: Config, env: Environment)
    requires i < |w.clients| && FixedSnapshot(env, snap) && w.clients[i].state == Authenticated
    requires !SessionOver(w.clients[i], now) && !QuotaCounts(w.clients[i], cfg)
    ensures Ended(w, LateTurn(w, i, w.clients[i], now, cfg, env), i, snap, now, cfg)
  {
    hide Throttle, Deauth, CheckRates, Refresh;
    var c := w.clients[i];
    DeauthExact(w, i);
    var v := Throttle(w, i, Upload, env(c.id, Upload), cfg);
    ThrottleExact(w, i, Upload, env(c.id, Upload), cfg);
    DeauthExact(v, i);
    CheckRatesMoved(v, i, now, cfg);
  }

  /** The download quota ends the session or throttles the client. */
  predicate QuotaCounts(c: ClientInfo, cfg: Config) {
    CutOffDue(c, Download, cfg) || ThrottleDue(c, Download, cfg)
  }

  /** One turn of the pass does to its client what Fate says, whatever the other clients are. */
  lemma TurnExact(w: World, i: nat, now: int, snap: Snapshot, cfg: Config, env: Environment)
    requires i < |w.clients| && FixedSnapshot(env, snap)
    ensures Ended(w, PassTurn(w, i, now, cfg, env), i, snap, now, cfg)
  {
    hide Throttle, Deauth, LateTurn, Refresh;
    var c := w.clients[i];
    assert DeleteAt(w, i).clients == Removed(w.clients, i);
    DeauthExact(w, i);
    if c.state != Preauthenticated && !SessionOver(c, now) && !CutOffDue(c, Download, cfg) {
      var v := Throttle(w, i, Download, env(c.id, Download), cfg);
      ThrottleExact(w, i, Download, env(c.id, Download), cfg);
      if c.state == Authenticated && !ThrottleDue(c, Download, cfg) {
        LateTurnExact(w, i, now, snap, cfg, env);
      } else {
        StaysPut(v, i, c, now, snap, cfg, env);
      }
    }
  }

  // ---- the walk -------------------------------------------------------------------------------

  predicate IncreasingIds(cs: seq<ClientInfo>) {
    forall i, j :: 0 <= i < j < |cs| ==> cs[i].id < cs[j].id
  }

  lemma WalkStep(w: World, i: nat, now: int, cfg: Config, env: Environment)
    requires i < |w.clients| && IncreasingIds(w.clients)
    ensures PassWalk(w, Ids(w.clients[i..]), now, cfg, env)
            == PassWalk(PassTurn(w, i, now, cfg, env), Ids(w.clients[i + 1..]), now, cfg, env)
  {
    hide PassTurn;
    FirstIndexUnique(w.clients, ById(w.clients[i].id), i);
    var ids := Ids(w.clients[i..]);
    assert ids[1..] == Ids(w.clients[i + 1..]);
  }

  lemma WalkOver(w: World, now: int, cfg: Config, env: Environment)
    ensures PassWalk(w, Ids(w.clients[|w.clients|..]), now, cfg, env) == w
  {
  }

  /** The pass reads the counters of the client at j again before turn t, as of the first client with its
      address: a client throttled in an earlier turn comes after all sharers of the address before j, and the pass
      deletes all of those. */
  predicate Touched(cs: seq<ClientInfo>, t: nat, j: nat, now: int, cfg: Config)
    requires t <= |cs| && j < |cs|
  {
    exists k :: 0 <= k < t && k < j && Throttled(cs[k], now, cfg) && GoneBefore(cs, k, j, now, cfg)
  }

  predicate GoneBefore(cs: seq<ClientInfo>, k: nat, j: nat, now: int, cfg: Config)
    requires k <= j < |cs|
  {
    forall i :: 0 <= i < j && cs[i].ip == cs[j].ip ==> i < k && Fate(cs[i], now, cfg).None?
  }

  predicate Late(cs: seq<ClientInfo>, j: nat, now: int, cfg: Config)
    requires j < |cs|
  {
    Touched(cs, j, j, now, cfg)
  }

  /** Reading the counters again decides nothing else about any late client from t on. */
  predicate LateAgree(cs: seq<ClientInfo>, t: nat, snap: Snapshot, now: int, cfg: Config)
    requires t <= |cs|
  {
    forall j :: t <= j < |cs| && Late(cs, j, now, cfg) ==>
      Fate(Recounted(cs[j], snap), now, cfg) == Fate(cs[j], now, cfg)
  }

  function Current(cs: seq<ClientInfo>, t: nat, j: nat, snap: Snapshot, now: int, cfg: Config): ClientInfo
    requires t <= |cs| && j < |cs|
  {
    if Touched(cs, t, j, now, cfg) then Recounted(cs[j], snap) else cs[j]
  }

  predicate ListedIp(cs: seq<ClientInfo>, n: nat, ip: string)
    requires n <= |cs|
  {
    exists i :: 0 <= i < n && cs[i].ip == ip
  }

  predicate SurvivedIp(cs: seq<ClientInfo>, n: nat, ip: string, now: int, cfg: Config)
    requires n <= |cs|
  {
    exists i :: 0 <= i < n && cs[i].ip == ip && Fate(cs[i], now, cfg).Some?
  }

  /** The first p clients of `ds` have the addresses of the survivors among the first t of `cs`. */
  ghost predicate SameAddresses(cs: seq<ClientInfo>, ds: seq<ClientInfo>, p: nat, t: nat, now: int, cfg: Config)
    requires t <= |cs| && p <= |ds|
  {
    forall ip: string :: ListedIp(ds, p, ip) <==> SurvivedIp(cs, t, ip, now, cfg)
  }

  /** The clients of `ds` from p on are those of `cs` from t on, as they are by now. */
  predicate Currents(cs: seq<ClientInfo>, ds: seq<ClientInfo>, p: nat, t: nat, snap: Snapshot, now: int, cfg: Config)
    requires t <= |cs| && p <= |ds| && |ds| - p == |cs| - t
  {
    forall q :: p <= q < |ds| ==> ds[q] == Current(cs, t, t + (q - p), snap, now, cfg)
  }

  /** The walk over `cs` after t turns that went as Fate says of `cs`: the p clients before are the survivors'
      addresses, those after are still to come. */
  ghost predicate Midway(cs: seq<ClientInfo>, w: World, p: nat, t: nat, snap: Snapshot, now: int, cfg: Config) {
    && t <= |cs| && p <= |w.clients| && |w.clients| - p == |cs| - t
    && IncreasingIds(w.clients)
    && Currents(cs, w.clients, p, t, snap, now, cfg)
    && SameAddresses(cs, w.clients, p, t, now, cfg)
  }

  /** A list whose first p addresses are those of the survivors of the first t clients of `cs`, and whose others are
      those of `cs` from t on: the client that was at j is the first with its address just if all sharers are gone. */
  ghost predicate Aligned(cs: seq<ClientInfo>, ds: seq<ClientInfo>, p: nat, t: nat, now: int, cfg: Config) {
    && t <= |cs| && p <= |ds| && |ds| - p == |cs| - t
    && (forall q :: p <= q < |ds| ==> ds[q].ip == cs[t + (q - p)].ip)
    && SameAddresses(cs, ds, p, t, now, cfg)
  }

  lemma MidwayAligned(cs: seq<ClientInfo>, w: World, p: nat, t: nat, snap: Snapshot, now: int, cfg: Config)
    requires Midway(cs, w, p, t, snap, now, cfg)
    ensures Aligned(cs, w.clients, p, t, now, cfg)
  {
    hide Fate, Recounted, IncreasingIds, Touched, SameAddresses;
  }

  lemma FirstOfGone(cs: seq<ClientInfo>, ds: seq<ClientInfo>, p: nat, t: nat, q: nat, now: int, cfg: Config)
    requires Aligned(cs, ds, p, t, now, cfg) && p < q < |ds|
    requires GoneBefore(cs, t, t + (q - p), now, cfg)
    ensures FirstAt(ds, q)
  {
    hide Fate;
    var ip := ds[q].ip;
    assert ListedIp(ds, p, ip) <==> SurvivedIp(cs, t, ip, now, cfg);
    assert !SurvivedIp(cs, t, ip, now, cfg);
    FirstIndexUnique(ds, ByIp(ip), q);
  }

  lemma FirstMeansGone(cs: seq<ClientInfo>, ds: seq<ClientInfo>, p: nat, t: nat, q: nat, now: int, cfg: Config)
    requires Aligned(cs, ds, p, t, now, cfg) && p < q < |ds|
    requires FirstAt(ds, q) && Fate(cs[t], now, cfg).Some?
    ensures GoneBefore(cs, t, t + (q - p), now, cfg)
  {
    hide Fate;
    var ip, j := ds[q].ip, t + (q - p);
    assert forall m :: 0 <= m < q ==> !Matches(ds[m], ByIp(ip));
    assert !ListedIp(ds, p, ip) && !SurvivedIp(cs, t, ip, now, cfg);
    forall i | 0 <= i < j && !(i < t && Fate(cs[i], now, cfg).None?)
      ensures cs[i].ip != cs[j].ip
    {
      if i >= t {
        assert ds[p + (i - t)].ip == cs[i].ip && !Matches(ds[p + (i - t)], ByIp(ip));
      }
    }
  }

  lemma TouchedNext(cs: seq<ClientInfo>, t: nat, j: nat, now: int, cfg: Config)
    requires t < j < |cs|
    ensures Touched(cs, t + 1, j, now, cfg)
            <==> Touched(cs, t, j, now, cfg) || (Throttled(cs[t], now, cfg) && GoneBefore(cs, t, j, now, cfg))
  {
    hide Throttled, GoneBefore;
  }

  /** A turn that goes as Fate says of `cs` leads to the next stage of the walk. */
  lemma MidwayStep(cs: seq<ClientInfo>, w: World, u: World, p: nat, t: nat, snap: Snapshot, now: int, cfg: Config)
    requires Midway(cs, w, p, t, snap, now, cfg) && t < |cs| && snap.outgoing.Some? && snap.incoming.Some?
    requires Fate(w.clients[p], now, cfg) == Fate(cs[t], now, cfg) && Ended(w, u, p, snap, now, cfg)
    ensures Midway(cs, u, if Fate(cs[t], now, cfg).None? then p else p + 1, t + 1, snap, now, cfg)
  {
    hide Fate, Recounted, Touched, GoneBefore, Refresh, ListedIp, SurvivedIp;
    if Fate(cs[t], now, cfg).None? {
      StepGone(cs, w, u, p, t, snap, now, cfg);
    } else {
      StepStays(cs, w, u, p, t, snap, now, cfg);
    }
  }

  lemma StepGone(cs: seq<ClientInfo>, w: World, u: World, p: nat, t: nat, snap: Snapshot, now: int, cfg: Config)
    requires Midway(cs, w, p, t, snap, now, cfg) && t < |cs|
    requires Fate(cs[t], now, cfg).None? && u.clients == Removed(w.clients, p)
    ensures Midway(cs, u, p, t + 1, snap, now, cfg)
  {
    hide Fate, Recounted, Touched, GoneBefore, Refresh;
    forall q | p <= q < |u.clients|
      ensures u.clients[q] == Current(cs, t + 1, t + 1 + (q - p), snap, now, cfg)
    {
      assert u.clients[q] == w.clients[q + 1];
      TouchedNext(cs, t, t + 1 + (q - p), now, cfg);
    }
    forall ip: string
      ensures ListedIp(u.clients, p, ip) <==> SurvivedIp(cs, t + 1, ip, now, cfg)
    {
      assert ListedIp(w.clients, p, ip) <==> SurvivedIp(cs, t, ip, now, cfg);
      SameListedIp(w.clients, u.clients, p, ip);
      SurvivedNext(cs, t, ip, now, cfg);
    }
  }

  lemma SameListedIp(cs: seq<ClientInfo>, ds: seq<ClientInfo>, n: nat, ip: string)
    requires n <= |cs| && n <= |ds| && forall i :: 0 <= i < n ==> ds[i].ip == cs[i].ip
    ensures ListedIp(cs, n, ip) <==> ListedIp(ds, n, ip)
  {
    if ListedIp(cs, n, ip) {
      var i :| 0 <= i < n && cs[i].ip == ip;
      assert ds[i].ip == ip;
    }
    if ListedIp(ds, n, ip) {
      var i :| 0 <= i < n && ds[i].ip == ip;
      assert cs[i].ip == ip;
    }
  }

  lemma SurvivedNext(cs: seq<ClientInfo>, t: nat, ip: string, now: int, cfg: Config)
    requires t < |cs|
    ensures SurvivedIp(cs, t + 1, ip, now, cfg)
            <==> SurvivedIp(cs, t, ip, now, cfg) || (cs[t].ip == ip && Fate(cs[t], now, cfg).Some?)
  {
    hide Fate;
  }

  lemma ListedNext(cs: seq<ClientInfo>, p: nat, ip: string)
    requires p < |cs|
    ensures ListedIp(cs, p + 1, ip) <==> ListedIp(cs, p, ip) || cs[p].ip == ip
  {
  }

  lemma StepStays(cs: seq<ClientInfo>, w: World, u: World, p: nat, t: nat, snap: Snapshot, now: int, cfg: Config)
    requires Midway(cs, w, p, t, snap, now, cfg) && t < |cs| && snap.outgoing.Some? && snap.incoming.Some?
    requires Fate(cs[t], now, cfg).Some? && Fate(w.clients[p], now, cfg) == Fate(cs[t], now, cfg)
    requires Moved(w, u, p, Fate(cs[t], now, cfg).value,
                   if Throttled(w.clients[p], now, cfg) then Refresh(w.clients, snap).0 else w.clients)
    ensures Midway(cs, u, p + 1, t + 1, snap, now, cfg)
  {
    hide Fate, Recounted, Refresh, SameAddresses, Currents, Throttled;
    MidwayNow(cs, w, p, t, snap, now, cfg);
    StepCurrents(cs, w, u, p, t, snap, now, cfg);
    SameIds(w.clients, u.clients);
    SurvivorJoins(cs, w.clients, u.clients, p, t, now, cfg);
  }

  lemma SameIds(cs: seq<ClientInfo>, ds: seq<ClientInfo>)
    requires |cs| == |ds| && IncreasingIds(cs) && forall j :: 0 <= j < |cs| ==> ds[j].id == cs[j].id
    ensures IncreasingIds(ds)
  {
  }

  lemma StepCurrents(cs: seq<ClientInfo>, w: World, u: World, p: nat, t: nat, snap: Snapshot, now: int, cfg: Config)
    requires Midway(cs, w, p, t, snap, now, cfg) && t < |cs| && snap.outgoing.Some? && snap.incoming.Some?
    requires Fate(cs[t], now, cfg).Some? && Fate(w.clients[p], now, cfg) == Fate(cs[t], now, cfg)
    requires Moved(w, u, p, Fate(cs[t], now, cfg).value,
                   if Throttled(w.clients[p], now, cfg) then Refresh(w.clients, snap).0 else w.clients)
    ensures Currents(cs, u.clients, p + 1, t + 1, snap, now, cfg)
  {
    hide Midway, Current, Moved, Fate;
    MidwaySize(cs, w, p, t, snap, now, cfg);
    MovedSize(w, u, p, Fate(cs[t], now, cfg).value,
              if Throttled(w.clients[p], now, cfg) then Refresh(w.clients, snap).0 else w.clients);
    var p1 := p + 1;
    forall q | p1 <= q < |u.clients|
      ensures u.clients[q] == Current(cs, t + 1, t + 1 + (q - p1), snap, now, cfg)
    {
      StepCurrent(cs, w, u, p, t, t + (q - p), snap, now, cfg);
    }
  }

  lemma MovedSize(w: World, u: World, i: nat, state: Mark, others: seq<ClientInfo>)
    requires i < |w.clients| && Moved(w, u, i, state, others)
    ensures |u.clients| == |w.clients|
  {
  }

  lemma MidwaySize(cs: seq<ClientInfo>, w: World, p: nat, t: nat, snap: Snapshot, now: int, cfg: Config)
    requires Midway(cs, w, p, t, snap, now, cfg)
    ensures t <= |cs| && p <= |w.clients| && |w.clients| - p == |cs| - t
  {
  }

  lemma SurvivorJoins(cs: seq<ClientInfo>, ds: seq<ClientInfo>, es: seq<ClientInfo>, p: nat, t: nat, now: int,
                      cfg: Config)
    requires p < |ds| == |es| && t < |cs| && ds[p].ip == cs[t].ip && Fate(cs[t], now, cfg).Some?
    requires forall i :: 0 <= i < |ds| ==> es[i].ip == ds[i].ip
    requires SameAddresses(cs, ds, p, t, now, cfg)
    ensures SameAddresses(cs, es, p + 1, t + 1, now, cfg)
  {
    hide Fate, ListedIp, SurvivedIp;
    var p1 := p + 1;
    forall ip: string
      ensures ListedIp(es, p1, ip) <==> SurvivedIp(cs, t + 1, ip, now, cfg)
    {
      assert ListedIp(ds, p, ip) <==> SurvivedIp(cs, t, ip, now, cfg);
      SameListedIp(ds, es, p1, ip);
      ListedNext(ds, p, ip);
      SurvivedNext(cs, t, ip, now, cfg);
    }
  }

  lemma StepCurrent(cs: seq<ClientInfo>, w: World, u: World, p: nat, t: nat, j: nat, snap: Snapshot, now: int,
                    cfg: Config)
    requires Midway(cs, w, p, t, snap, now, cfg) && t < j < |cs| && snap.outgoing.Some? && snap.incoming.Some?
    requires Fate(cs[t], now, cfg).Some? && Fate(w.clients[p], now, cfg) == Fate(cs[t], now, cfg)
    requires Moved(w, u, p, Fate(cs[t], now, cfg).value,
                   if Throttled(w.clients[p], now, cfg) then Refresh(w.clients, snap).0 else w.clients)
    ensures u.clients[p + (j - t)] == Current(cs, t + 1, j, snap, now, cfg)
  {
    hide Fate, Recounted, Touched, GoneBefore, Refresh, ListedIp, SurvivedIp, FirstAt, IncreasingIds;
    var q := p + (j - t);
    assert w.clients[p] == Current(cs, t, t, snap, now, cfg);
    assert w.clients[q] == Current(cs, t, j, snap, now, cfg);
    TouchedNext(cs, t, j, now, cfg);
    if Throttled(w.clients[p], now, cfg) {
      RefreshAt(w.clients, snap, q);
      MidwayAligned(cs, w, p, t, snap, now, cfg);
      if GoneBefore(cs, t, j, now, cfg) {
        FirstOfGone(cs, w.clients, p, t, q, now, cfg);
      } else if FirstAt(w.clients, q) {
        FirstMeansGone(cs, w.clients, p, t, q, now, cfg);
      }
      RecountedTwice(cs[j], snap);
    }
  }

  /** Ids and states on both sides of a turn. */
  lemma AfterTurn(w: World, u: World, i: nat, snap: Snapshot, now: int, cfg: Config)
    requires i < |w.clients| && IncreasingIds(w.clients) && Ended(w, u, i, snap, now, cfg)
    ensures IncreasingIds(u.clients)
    ensures var fate := Fate(w.clients[i], now, cfg);
            && |u.clients| == (if fate.None? then |w.clients| - 1 else |w.clients|)
            && IdStates(u.clients)[..i] == IdStates(w.clients)[..i]
            && Ids(u.clients[if fate.None? then i else i + 1..]) == Ids(w.clients[i + 1..])
            && (fate.Some? ==> u.clients[i].id == w.clients[i].id && u.clients[i].state == fate.value)
  {
    hide Fate, Refresh;
  }

  predicate Above(ids: seq<nat>, low: nat) {
    forall i :: 0 <= i < |ids| ==> ids[i] > low
  }

  /** The turns still to come change neither who has survived so far nor in what state. */
  lemma {:induction false} WalkKeeps(w: World, p: nat, low: nat, now: int, snap: Snapshot, cfg: Config,
                                     env: Environment)
    requires p <= |w.clients| && IncreasingIds(w.clients) && FixedSnapshot(env, snap)
    requires Above(Ids(w.clients[p..]), low)
    ensures var cs := PassWalk(w, Ids(w.clients[p..]), now, cfg, env).clients;
            p <= |cs| && IdStates(cs)[..p] == IdStates(w.clients)[..p] && Above(Ids(cs[p..]), low)
    decreases |w.clients| - p
  {
    hide PassTurn, Fate, FixedSnapshot, PassWalk, Ended, IncreasingIds;
    if p == |w.clients| {
      WalkOver(w, now, cfg, env);
    } else {
      var u := PassTurn(w, p, now, cfg, env);
      TurnExact(w, p, now, snap, cfg, env);
      WalkStep(w, p, now, cfg, env);
      AfterTurn(w, u, p, snap, now, cfg);
      assert Ids(w.clients[p..])[1..] == Ids(w.clients[p + 1..]);
      if Fate(w.clients[p], now, cfg).None? {
        WalkKeeps(u, p, low, now, snap, cfg, env);
      } else {
        WalkKeeps(u, p + 1, low, now, snap, cfg, env);
        var cs := PassWalk(u, Ids(u.clients[p + 1..]), now, cfg, env).clients;
        KeptLonger(u.clients, cs, p, low);
      }
    }
  }

  lemma KeptLonger(ds: seq<ClientInfo>, cs: seq<ClientInfo>, p: nat, low: nat)
    requires p < |ds| && p < |cs| && IdStates(cs)[..p + 1] == IdStates(ds)[..p + 1]
    requires ds[p].id > low && Above(Ids(cs[p + 1..]), low)
    ensures IdStates(cs)[..p] == IdStates(ds)[..p] && Above(Ids(cs[p..]), low)
  {
    assert IdStates(cs)[..p] == IdStates(cs)[..p + 1][..p] && IdStates(ds)[..p] == IdStates(ds)[..p + 1][..p];
    assert IdStates(cs)[p] == IdStates(cs)[..p + 1][p] == IdStates(ds)[..p + 1][p] == IdStates(ds)[p];
    assert forall i :: 0 < i < |cs[p..]| ==> Ids(cs[p..])[i] == Ids(cs[p + 1..])[i - 1];
  }

  predicate AllAbove(s: seq<(nat, Mark)>, low: nat) {
    forall i :: 0 <= i < |s| ==> s[i].0 > low
  }

  lemma {:induction false} SurvivorsAbove(cs: seq<ClientInfo>, low: nat, now: int, cfg: Config)
    requires Above(Ids(cs), low)
    ensures AllAbove(Survivors(cs, now, cfg), low)
  {
    hide Fate;
    if cs != [] {
      assert Ids(cs[1..]) == Ids(cs)[1..] && Ids(cs)[0] == cs[0].id;
      SurvivorsAbove(cs[1..], low, now, cfg);
    }
  }

  /** Two lists of survivors that differ in one client's entry differ. */
  lemma EntriesDiffer(whole: seq<(nat, Mark)>, n: nat, pre: seq<(nat, Mark)>, id: nat, f: Option<Mark>,
                      g: Option<Mark>, y: seq<(nat, Mark)>)
    requires n <= |whole| && whole[..n] == pre + Entry(id, f)
    requires f != g && AllAbove(whole[n..], id) && AllAbove(y, id)
    ensures whole != pre + (Entry(id, g) + y)
  {
    var x := whole[n..];
    var d, e := Entry(id, f) + x, Entry(id, g) + y;
    assert whole == pre + Entry(id, f) + x;
    assert pre + Entry(id, g) + y == pre + e;
    assert (pre + Entry(id, f) + x)[|pre|..] == d && (pre + Entry(id, g) + y)[|pre|..] == e;
    assert f.Some? ==> |d| > 0 && d[0] == (id, f.value);
    assert g.Some? ==> |e| > 0 && e[0] == (id, g.value);
    assert f.None? ==> d == x;
    assert g.None? ==> e == y;
  }

  lemma TurnEntry(w: World, u: World, p: nat, snap: Snapshot, now: int, cfg: Config)
    requires p < |w.clients| && IncreasingIds(w.clients) && Ended(w, u, p, snap, now, cfg)
    ensures var fate := Fate(w.clients[p], now, cfg);
            var n := if fate.None? then p else p + 1;
            n <= |u.clients| && IdStates(u.clients)[..n] == IdStates(w.clients)[..p] + Entry(w.clients[p].id, fate)
  {
    hide Fate, Refresh, Ended, IncreasingIds;
    AfterTurn(w, u, p, snap, now, cfg);
    if Fate(w.clients[p], now, cfg).Some? {
      assert IdStates(u.clients)[..p + 1] == IdStates(u.clients)[..p] + [IdStates(u.clients)[p]];
    }
  }

  lemma IdsAbove(cs: seq<ClientInfo>, i: nat)
    requires i < |cs| && IncreasingIds(cs)
    ensures Above(Ids(cs[i + 1..]), cs[i].id)
  {
  }

  lemma AboveBoth(cs: seq<ClientInfo>, n: nat, low: nat)
    requires n <= |cs| && Above(Ids(cs[n..]), low)
    ensures AllAbove(IdStates(cs)[n..], low)
  {
    assert forall i :: 0 <= i < |cs| - n ==> IdStates(cs)[n..][i].0 == Ids(cs[n..])[i];
  }

  /** A turn that goes another way than Fate says of `cs` shows in the end, whatever the later turns do. */
  lemma WrongTurnShows(cs: seq<ClientInfo>, w: World, p: nat, t: nat, now: int, snap: Snapshot, cfg: Config,
                       env: Environment)
    requires p < |w.clients| && t < |cs| && IncreasingIds(w.clients) && IncreasingIds(cs) && FixedSnapshot(env, snap)
    requires w.clients[p].id == cs[t].id && Fate(w.clients[p], now, cfg) != Fate(cs[t], now, cfg)
    ensures IdStates(PassWalk(w, Ids(w.clients[p..]), now, cfg, env).clients)
            != IdStates(w.clients)[..p] + Survivors(cs[t..], now, cfg)
  {
    hide PassTurn, Fate, FixedSnapshot, PassWalk, Ended, IncreasingIds, Survivors, Entry, AllAbove;
    var id, fate := cs[t].id, Fate(w.clients[p], now, cfg);
    var u := PassTurn(w, p, now, cfg, env);
    var n := if fate.None? then p else p + 1;
    TurnExact(w, p, now, snap, cfg, env);
    WalkStep(w, p, now, cfg, env);
    AfterTurn(w, u, p, snap, now, cfg);
    TurnEntry(w, u, p, snap, now, cfg);
    IdsAbove(w.clients, p);
    WalkKeeps(u, n, id, now, snap, cfg, env);
    var final := PassWalk(u, Ids(u.clients[n..]), now, cfg, env).clients;
    var pre, y := IdStates(w.clients)[..p], Survivors(cs[t + 1..], now, cfg);
    AboveBoth(final, n, id);
    IdsAbove(cs, t);
    SurvivorsAbove(cs[t + 1..], id, now, cfg);
    SurvivorsStep(cs, t, now, cfg);
    EntriesDiffer(IdStates(final), n, pre, id, fate, Fate(cs[t], now, cfg), y);
  }

  lemma SurvivorsStep(cs: seq<ClientInfo>, t: nat, now: int, cfg: Config)
    requires t < |cs|
    ensures Survivors(cs[t..], now, cfg) == Entry(cs[t].id, Fate(cs[t], now, cfg)) + Survivors(cs[t + 1..], now, cfg)
  {
    hide Fate;
    assert cs[t..][1..] == cs[t + 1..];
  }

  /** From any stage on, the walk leaves the survivors exactly if the late clients to come agree. */
  lemma {:induction false} WalkExact(cs: seq<ClientInfo>, w: World, p: nat, t: nat, now: int, snap: Snapshot,
                                     cfg: Config, env: Environment)
    requires IncreasingIds(cs) && FixedSnapshot(env, snap) && Midway(cs, w, p, t, snap, now, cfg)
    ensures IdStates(PassWalk(w, Ids(w.clients[p..]), now, cfg, env).clients)
            == IdStates(w.clients)[..p] + Survivors(cs[t..], now, cfg)
            <==> LateAgree(cs, t, snap, now, cfg)
    decreases |cs| - t
  {
    hide PassTurn, Fate, FixedSnapshot, PassWalk, Ended, IncreasingIds, Recounted, Midway, LateAgree, Survivors;
    MidwayNow(cs, w, p, t, snap, now, cfg);
    if t == |cs| {
      WalkOver(w, now, cfg, env);
      NothingLeft(cs, snap, now, cfg);
      assert IdStates(w.clients)[..p] + [] == IdStates(w.clients);
    } else if Fate(w.clients[p], now, cfg) != Fate(cs[t], now, cfg) {
      WrongTurnShows(cs, w, p, t, now, snap, cfg, env);
      LateAgreeStep(cs, t, snap, now, cfg);
    } else {
      var u := PassTurn(w, p, now, cfg, env);
      var n := if Fate(cs[t], now, cfg).None? then p else p + 1;
      TurnExact(w, p, now, snap, cfg, env);
      WalkStep(w, p, now, cfg, env);
      AfterTurn(w, u, p, snap, now, cfg);
      TurnEntry(w, u, p, snap, now, cfg);
      FixedBoth(env, snap);
      MidwayStep(cs, w, u, p, t, snap, now, cfg);
      WalkExact(cs, u, n, t + 1, now, snap, cfg, env);
      SurvivorsStep(cs, t, now, cfg);
      LateAgreeStep(cs, t, snap, now, cfg);
      assert IdStates(w.clients)[..p] + Survivors(cs[t..], now, cfg)
             == IdStates(u.clients)[..n] + Survivors(cs[t + 1..], now, cfg);
    }
  }

  lemma MidwayNow(cs: seq<ClientInfo>, w: World, p: nat, t: nat, snap: Snapshot, now: int, cfg: Config)
    requires Midway(cs, w, p, t, snap, now, cfg)
    ensures t <= |cs| && p <= |w.clients| && IncreasingIds(w.clients) && (t == |cs| <==> p == |w.clients|)
    ensures t < |cs| ==> w.clients[p] == if Late(cs, t, now, cfg) then Recounted(cs[t], snap) else cs[t]
  {
    hide Fate, Recounted, SameAddresses, IncreasingIds, Throttled, GoneBefore;
  }

  lemma NothingLeft(cs: seq<ClientInfo>, snap: Snapshot, now: int, cfg: Config)
    ensures Survivors(cs[|cs|..], now, cfg) == [] && LateAgree(cs, |cs|, snap, now, cfg)
  {
  }

  lemma LateAgreeStep(cs: seq<ClientInfo>, t: nat, snap: Snapshot, now: int, cfg: Config)
    requires t < |cs|
    ensures LateAgree(cs, t, snap, now, cfg)
            <==> LateAgree(cs, t + 1, snap, now, cfg)
                 && (Late(cs, t, now, cfg) ==> Fate(Recounted(cs[t], snap), now, cfg) == Fate(cs[t], now, cfg))
  {
    hide Fate, Recounted, Late;
  }

  /** One whole pass over one counter snapshot. With the counters refreshed once, the clients left are the survivors
      of the list, in its order and in the state Fate names, if and only if reading the counters again does not
      change the fate of any late client: one that comes after a throttled client, which in turn comes after all
      sharers of its address, none of which stays. */
  lemma PassFilters(w: World, now: int, snap: Snapshot, cfg: Config, env: Environment)
    requires ListOk(w, cfg) && FixedSnapshot(env, snap)
    ensures var cs := Refresh(w.clients, snap).0;
            IdStates(Pass(w, now, snap, cfg, env).clients) == Survivors(cs, now, cfg)
            <==> LateAgree(cs, 0, snap, now, cfg)
  {
    hide Refresh, PassWalk, Fate, FixedSnapshot, Survivors, LateAgree, Midway, Recounted;
    var u := RefreshWorld(w, snap).0;
    var cs := u.clients;
    RefreshSucceeds(w.clients, snap, env);
    assert IncreasingIds(cs);
    MidwayStart(u, snap, now, cfg);
    WalkExact(cs, u, 0, 0, now, snap, cfg, env);
    assert cs[0..] == cs;
    assert IdStates(cs)[..0] + Survivors(cs[0..], now, cfg) == Survivors(cs, now, cfg);
  }

  lemma MidwayStart(u: World, snap: Snapshot, now: int, cfg: Config)
    requires IncreasingIds(u.clients)
    ensures Midway(u.clients, u, 0, 0, snap, now, cfg)
  {
    hide Fate, Recounted;
  }

  lemma FixedBoth(env: Environment, snap: Snapshot)
    requires FixedSnapshot(env, snap)
    ensures snap.outgoing.Some? && snap.incoming.Some?
  {
  }

  lemma RefreshSucceeds(cs: seq<ClientInfo>, snap: Snapshot, env: Environment)
    requires FixedSnapshot(env, snap)
    ensures Refresh(cs, snap).1
  {
  }

  predicate NobodyThrottled(cs: seq<ClientInfo>, now: int, cfg: Config) {
    forall i :: 0 <= i < |cs| ==> !Throttled(cs[i], now, cfg)
  }

  /** So a pass is a filter whenever nobody shares an address, and whenever nobody is throttled in it. */
  lemma PassFiltersUsually(w: World, now: int, snap: Snapshot, cfg: Config, env: Environment)
    requires ListOk(w, cfg) && FixedSnapshot(env, snap)
    requires DistinctIps(w.clients) || NobodyThrottled(Refresh(w.clients, snap).0, now, cfg)
    ensures IdStates(Pass(w, now, snap, cfg, env).clients) == Survivors(Refresh(w.clients, snap).0, now, cfg)
  {
    hide Refresh, Recounted, Fate, Pass, FixedSnapshot;
    var cs := Refresh(w.clients, snap).0;
    PassFilters(w, now, snap, cfg, env);
    FixedBoth(env, snap);
    forall j | 0 <= j < |cs| && Late(cs, j, now, cfg)
      ensures Recounted(cs[j], snap) == cs[j]
    {
      FirstIndexUnique(w.clients, ByIp(w.clients[j].ip), j);
      RefreshAt(w.clients, snap, j);
      RecountedTwice(w.clients[j], snap);
    }
  }

  // ---- deauthenticating everybody -------------------------------------------------------------

  function NotAuthenticated(cs: seq<ClientInfo>): seq<ClientInfo> {
    if cs == [] then []
    else (if cs[0].state == Authenticated then [] else [cs[0]]) + NotAuthenticated(cs[1..])
  }

  lemma DeauthWalkStep(w: World, i: nat)
    requires i < |w.clients| && IncreasingIds(w.clients)
    ensures DeauthIds(w, Ids(w.clients[i..])) == DeauthIds(Deauth(w, i).0, Ids(w.clients[i + 1..]))
  {
    hide Deauth;
    FirstIndexUnique(w.clients, ById(w.clients[i].id), i);
    assert Ids(w.clients[i..])[1..] == Ids(w.clients[i + 1..]);
  }

  lemma DeauthWalkOver(w: World)
    ensures DeauthIds(w, Ids(w.clients[|w.clients|..])) == w
  {
  }

  lemma DeauthRefused(w: World, i: nat)
    requires i < |w.clients| && w.clients[i].state != Authenticated
    ensures Deauth(w, i).0 == w
  {
  }

  lemma RemovedIncreasing(cs: seq<ClientInfo>, i: nat)
    requires i < |cs| && IncreasingIds(cs)
    ensures IncreasingIds(Removed(cs, i))
  {
  }

  lemma {:induction false} DeauthWalkFilters(w: World, done: nat)
    requires done <= |w.clients| && IncreasingIds(w.clients)
    ensures DeauthIds(w, Ids(w.clients[done..])).clients == w.clients[..done] + NotAuthenticated(w.clients[done..])
    decreases |w.clients| - done
  {
    hide Deauth, DeauthIds, IncreasingIds;
    if done == |w.clients| {
      DeauthWalkOver(w);
      assert w.clients[..done] == w.clients;
    } else {
      var rest := w.clients[done..];
      DeauthWalkStep(w, done);
      assert rest[1..] == w.clients[done + 1..];
      if rest[0].state == Authenticated {
        var u := Deauth(w, done).0;
        DeauthExact(w, done);
        RemovedIncreasing(w.clients, done);
        assert u.clients[..done] == w.clients[..done] && u.clients[done..] == rest[1..];
        DeauthWalkFilters(u, done);
      } else {
        DeauthRefused(w, done);
        DeauthWalkFilters(w, done + 1);
        assert w.clients[..done + 1] == w.clients[..done] + [rest[0]];
      }
    }
  }

  /** At shutdown exactly the authenticated clients leave; everybody else stays as they were. */
  lemma DeauthAllFilters(w: World, cfg: Config)
    requires ListOk(w, cfg)
    ensures DeauthAll(w).clients == NotAuthenticated(w.clients)
  {
    assert IncreasingIds(w.clients);
    DeauthWalkFilters(w, 0);
    assert w.clients[0..] == w.clients;
  }
}
