/** What an authentication grants, and what a throttled client is limited to. */
module Grants {
  import opened Basics
  import opened Clients
  import opened Firewall
  import opened RateLimit
  import opened CounterRefresh
  import opened Counting
  import opened Session
  import opened Invariants
  import opened RateSection
  import opened Runs
  import opened Theorems
  import opened WindowCadence

  // ---- values ---------------------------------------------------------------------------------

  /** The five numbers of the reply; zeros when it is incomplete. */
  function Reply(inp: ChangeInput): Quota {
    if inp.quota.Some? then inp.quota.value else Quota(0, 0, 0, 0, 0)
  }

  /** A positive number of the reply counts; otherwise what the client has, and the global default for a zero. */
  function Chosen(reply: int, own: int, default: int): int {
    if reply > 0 then reply else if own != 0 then own else default
  }

  /** From client c the values of an authentication, each from its own number of the reply: rates, quotas and the end
      of the session, which an explicit one from the caller overrides. */
  predicate Values(c: ClientInfo, d: ClientInfo, inp: ChangeInput, cfg: Config) {
    var q := Reply(inp);
    && SameIdentity(c, d) && d.sessionStart == c.sessionStart && !d.sessionEndExplicit
    && d.uploadRate == Chosen(q.uprate, c.uploadRate, cfg.uploadRate)
    && d.downloadRate == Chosen(q.downrate, c.downloadRate, cfg.downloadRate)
    && d.uploadQuota == Chosen(q.upquota, c.uploadQuota, cfg.uploadQuota)
    && d.downloadQuota == Chosen(q.downquota, c.downloadQuota, cfg.downloadQuota)
    && d.sessionEnd == (if q.session > 0 && !c.sessionEndExplicit then inp.now + 60 * q.session else c.sessionEnd)
    && d.uprate == c.uprate && d.downrate == c.downrate
  }

  /** Counting starts from zero, in the listing that is read with the authentication; so does the window. */
  predicate FreshCounts(c: ClientInfo, d: ClientInfo, first: bool, inp: ChangeInput, cfg: Config) {
    var zero := Counters(0, 0, 0, 0, 0, 0, 0, 0, 0, 0, c.counters.lastUpdated);
    && d.counters.inWindowStart == d.counters.outWindowStart == 0
    && WindowOf(d) == Window(cfg.rateCheckWindow, inp.now)
    && if first then
         && Counted(zero, d.counters, Upload, LinesRead(inp.snap, Upload), c.ip)
         && Counted(zero, d.counters, Download, LinesRead(inp.snap, Download), c.ip)
         && d.counters.lastUpdated
            == (if LastRaise(LinesRead(inp.snap, Upload), c.ip, 0).Some? then inp.snap.at else c.counters.lastUpdated)
       else d.counters == zero
  }

  lemma GrantedValues(c: ClientInfo, inp: ChangeInput, cfg: Config)
    ensures var d := Granted(c.(sessionEndExplicit := false), c.sessionEndExplicit, inp, cfg);
            && Values(c, d, inp, cfg) && WindowOf(d) == Window(cfg.rateCheckWindow, inp.now)
            && d.state == c.state && d.rateExceeded == c.rateExceeded
            && d.counters == Counters(0, 0, 0, 0, 0, 0, 0, 0, 0, 0, c.counters.lastUpdated)
            && (forall dir :: Stored(d, dir) == Stored(c, dir))
  {
  }

  /** No earlier client has the address, and it is a real one. */
  predicate Counts(cs: seq<ClientInfo>, i: nat)
    requires i < |cs|
  {
    FirstAt(cs, i) && cs[i].ip != "0.0.0.0"
  }

  lemma AdmitValues(w: World, i: nat, inp: ChangeInput, cfg: Config)
    requires i < |w.clients|
    ensures var c, d := w.clients[i], Admit(w, i, inp, cfg).0.clients[i];
            && Values(c, d, inp, cfg) && FreshCounts(c, d, Counts(w.clients, i), inp, cfg)
            && d.state == c.state && d.rateExceeded == c.rateExceeded
            && (forall dir :: Stored(d, dir) == Stored(c, dir))
    ensures Admit(w, i, inp, cfg).1 <==> inp.snap.outgoing.Some? && inp.snap.incoming.Some?
  {
    hide Granted, Refresh, Counted, Values;
    var c := w.clients[i];
    var g := Granted(c.(sessionEndExplicit := false), c.sessionEndExplicit, inp, cfg);
    var v := Put(w, i, Cell(g, Authenticate(w.fw, c.ip, c.mac)));
    GrantedValues(c, inp, cfg);
    GrantedIs(c, inp, cfg);
    assert SameIdentities(w.clients, v.clients);
    FirstIndexSame(w.clients, v.clients, ByIp(c.ip));
    RefreshCounts(v.clients, inp.snap, i);
    var d := Refresh(v.clients, inp.snap).0[i];
    assert d == g.(counters := d.counters);
    ValuesRecounted(c, g, d, inp, cfg);
  }

  lemma GrantedIs(c: ClientInfo, inp: ChangeInput, cfg: Config)
    ensures SameIdentity(Granted(c.(sessionEndExplicit := false), c.sessionEndExplicit, inp, cfg), c)
  {
  }

  lemma ValuesRecounted(c: ClientInfo, g: ClientInfo, d: ClientInfo, inp: ChangeInput, cfg: Config)
    requires Values(c, g, inp, cfg) && d == g.(counters := d.counters)
    ensures Values(c, d, inp, cfg)
  {
  }

  // ---- limits ---------------------------------------------------------------------------------

  /** Limiting from the start: bursting is not allowed, and limiting is not switched off. */
  predicate LimitedAtOnce(cfg: Config, dir: Direction) {
    Bursting(cfg, dir) == 0 && RatioOf(cfg, dir) > 0
  }

  /** In a direction limited at once the client has the limit for its rate, if it has one; in the other nothing
      changes. */
  predicate LimitedAsSet(c: ClientInfo, d: ClientInfo, dir: Direction, cfg: Config) {
    Stored(d, dir) == if LimitedAtOnce(cfg, dir) && RateOf(d, dir) != 0 then LimitFor(d, cfg, dir) else Stored(c, dir)
  }

  lemma LimitsOf(c: ClientInfo, d: ClientInfo, cfg: Config)
    requires OnlyLimits(c, d)
    ensures forall dir :: LimitFor(c, cfg, dir) == LimitFor(d, cfg, dir) && RateOf(c, dir) == RateOf(d, dir)
  {
    SameLimit(c, d, cfg);
  }

  lemma AuthLimits(x: Cell, cfg: Config, dir: Direction)
    requires x.c.rateExceeded == 0
    ensures var d := AuthUpload(AuthDownload(x, cfg), cfg).c;
            && OnlyLimits(x.c, d) && LimitedAsSet(x.c, d, dir, cfg)
            && (Marked(d, dir) <==> LimitedAtOnce(cfg, dir))
  {
    hide LimitFor, ReplaceDownload, ReplaceUpload;
    var y := AuthDownload(x, cfg);
    var d := AuthUpload(y, cfg).c;
    Flips(0);
    Flips(1);
    DownloadKeeps(x, cfg);
    UploadKeeps(y, cfg);
    LimitsOf(x.c, y.c, cfg);
    LimitsOf(y.c, d, cfg);
  }

  lemma DownloadKeeps(x: Cell, cfg: Config)
    ensures OnlyLimits(x.c, LimitDownload(x, true, cfg).c)
    ensures x.c.downloadRate != 0 ==> Stored(LimitDownload(x, true, cfg).c, Download) == LimitFor(x.c, cfg, Download)
    ensures x.c.downloadRate == 0 ==> Stored(LimitDownload(x, true, cfg).c, Download) == Stored(x.c, Download)
    ensures Stored(LimitDownload(x, true, cfg).c, Upload) == Stored(x.c, Upload)
    ensures LimitDownload(x, true, cfg).c.rateExceeded == x.c.rateExceeded
  {
    hide RawDownloadLimit, Capped;
  }

  lemma UploadKeeps(x: Cell, cfg: Config)
    ensures OnlyLimits(x.c, LimitUpload(x, true, cfg).c)
    ensures x.c.uploadRate != 0 ==> Stored(LimitUpload(x, true, cfg).c, Upload) == LimitFor(x.c, cfg, Upload)
    ensures x.c.uploadRate == 0 ==> Stored(LimitUpload(x, true, cfg).c, Upload) == Stored(x.c, Upload)
    ensures Stored(LimitUpload(x, true, cfg).c, Download) == Stored(x.c, Download)
    ensures LimitUpload(x, true, cfg).c.rateExceeded == x.c.rateExceeded
  {
    hide RawUploadLimit, Capped;
  }

  // ---- an authentication ----------------------------------------------------------------------

  /** A refusal of BinAuth gives 1 and takes only the flag of an explicit session end away. Otherwise the client has the
      values granted to it. With readable listings it is authenticated, and in each direction marked as limited, with
      the limit for its rate, exactly when limiting is to start at once. Else it stays without a session, without limits
      and without rules. */
  lemma AuthorizeOutcome(w: World, i: nat, inp: ChangeInput, cfg: Config, dir: Direction)
    requires i < |w.clients| && w.clients[i].state == Preauthenticated && ClientOk(w.clients[i], cfg)
    ensures var (u, rc) := Authorize(w, i, inp, cfg);
            var c := w.clients[i];
            && |u.clients| == |w.clients|
            && rc == (if inp.binauth != 0 then 1
                      else if inp.snap.outgoing.Some? && inp.snap.incoming.Some? then 0 else -1)
            && if rc == 1 then u == Put(w, i, Cell(c.(sessionEndExplicit := false), w.fw))
               else
                 var d := u.clients[i];
                 && Values(c, d, inp, cfg) && FreshCounts(c, d, Counts(w.clients, i), inp, cfg)
                 && if rc == 0 then
                      && d.state == Authenticated
                      && (Marked(d, dir) <==> LimitedAtOnce(cfg, dir)) && LimitedAsSet(c, d, dir, cfg)
                    else
                      && d.state == Preauthenticated && d.rateExceeded == 0 && Stored(d, dir) == Stored(c, dir)
                      && View(u.fw, c.ip) == EMPTY
  {
    hide Admit, AuthDownload, AuthUpload, Values, FreshCounts, Deauthenticate, View, LimitFor, Marked, Stored;
    var c := w.clients[i];
    if inp.binauth == 0 {
      var (u, ok) := Admit(w, i, inp, cfg);
      AdmitValues(w, i, inp, cfg);
      if ok {
        AuthLimits(CellAt(u, i), cfg, dir);
        var d := AuthUpload(AuthDownload(CellAt(u, i), cfg), cfg).c;
        LimitsKeepValues(c, u.clients[i], d, Counts(w.clients, i), inp, cfg);
        StateOnly(d, dir, cfg);
      } else {
        WithdrawnView(w, u, i, inp, cfg);
      }
    }
  }

  lemma LimitsKeepValues(c: ClientInfo, d: ClientInfo, e: ClientInfo, first: bool, inp: ChangeInput, cfg: Config)
    requires Values(c, d, inp, cfg) && FreshCounts(c, d, first, inp, cfg) && OnlyLimits(d, e)
    ensures var f := e.(state := Authenticated); Values(c, f, inp, cfg) && FreshCounts(c, f, first, inp, cfg)
  {
    hide Counted;
  }

  lemma StateOnly(d: ClientInfo, dir: Direction, cfg: Config)
    ensures var f := d.(state := Authenticated);
            && Stored(f, dir) == Stored(d, dir) && (Marked(f, dir) <==> Marked(d, dir))
            && LimitFor(f, cfg, dir) == LimitFor(d, cfg, dir) && RateOf(f, dir) == RateOf(d, dir)
  {
    hide LimitFor;
    SameLimit(d, d.(state := Authenticated), cfg);
  }

  lemma WithdrawnView(w: World, u: World, i: nat, inp: ChangeInput, cfg: Config)
    requires i < |w.clients| && u == Admit(w, i, inp, cfg).0
    ensures u.clients[i].ip == w.clients[i].ip
    ensures View(Withdraw(u, i).fw, w.clients[i].ip) == EMPTY
  {
    hide Admit;
    AdmitValues(w, i, inp, cfg);
    ViewDeauthenticate(u.fw, w.clients[i].ip, w.clients[i].ip);
  }

  // ---- a throttling ---------------------------------------------------------------------------

  lemma BlockLimits(x: Cell, cfg: Config, dir: Direction)
    ensures var d := BlockUpload(BlockDownload(x, cfg), cfg).c;
            && OnlyLimits(x.c, d) && LimitedAsSet(x.c, d, dir, cfg)
            && (Marked(d, dir) <==> Marked(x.c, dir) || LimitedAtOnce(cfg, dir))
  {
    hide LimitFor, BlockDownload, BlockUpload, Marked, Stored;
    var y := BlockDownload(x, cfg);
    var d := BlockUpload(y, cfg).c;
    DownloadBlocked(x, cfg);
    UploadBlocked(y, cfg);
    LimitsOf(x.c, y.c, cfg);
    LimitsOf(y.c, d, cfg);
  }

  lemma DownloadBlocked(x: Cell, cfg: Config)
    ensures var d := BlockDownload(x, cfg).c;
            && OnlyLimits(x.c, d) && LimitedAsSet(x.c, d, Download, cfg)
            && (Marked(d, Download) <==> Marked(x.c, Download) || LimitedAtOnce(cfg, Download))
            && (Marked(d, Upload) <==> Marked(x.c, Upload)) && Stored(d, Upload) == Stored(x.c, Upload)
  {
    hide LimitFor, LimitDownload, Raised;
    DownloadKeeps(x, cfg);
    SetBits(x.c.rateExceeded);
    LimitsOf(x.c, BlockDownload(x, cfg).c, cfg);
  }

  lemma UploadBlocked(x: Cell, cfg: Config)
    ensures var d := BlockUpload(x, cfg).c;
            && OnlyLimits(x.c, d) && LimitedAsSet(x.c, d, Upload, cfg)
            && (Marked(d, Upload) <==> Marked(x.c, Upload) || LimitedAtOnce(cfg, Upload))
            && (Marked(d, Download) <==> Marked(x.c, Download)) && Stored(d, Download) == Stored(x.c, Download)
  {
    hide LimitFor, LimitUpload, Raised;
    UploadKeeps(x, cfg);
    SetBits(x.c.rateExceeded);
    LimitsOf(x.c, BlockUpload(x, cfg).c, cfg);
  }

  lemma SetBits(bits: bv32)
    ensures Raised(bits, 1) & 1 == 1 && Raised(bits, 1) & 2 == bits & 2
    ensures Raised(bits, 2) & 2 == 2 && Raised(bits, 2) & 1 == bits & 1
  {
  }

  /** Throttling an authenticated client restarts its window from the totals there are. With readable listings it
      is throttled, and marked and limited where limiting starts at once; else it stays authenticated, limited as it
      was. */
  lemma BlockOutcome(w: World, i: nat, inp: ChangeInput, cfg: Config, dir: Direction)
    requires i < |w.clients|
    ensures var (u, rc) := Block(w, i, inp, cfg);
            var c := w.clients[i];
            && |u.clients| == |w.clients|
            && rc == (if inp.snap.outgoing.Some? && inp.snap.incoming.Some? then 0 else -1)
            && var d := u.clients[i];
            && WindowOf(d) == Window(cfg.rateCheckWindow, inp.now)
            && d.counters.inWindowStart == c.counters.incoming && d.counters.outWindowStart == c.counters.outgoing
            && if rc == 0 then
                 && d.state == AuthBlocked && LimitedAsSet(c, d, dir, cfg)
                 && (Marked(d, dir) <==> Marked(c, dir) || LimitedAtOnce(cfg, dir))
               else d.state == c.state && (Marked(d, dir) <==> Marked(c, dir)) && Stored(d, dir) == Stored(c, dir)
  {
    hide Refresh, BlockDownload, BlockUpload, LimitFor, Counted;
    var c := w.clients[i];
    var v := Put(w, i, Cell(StartWindow(c, inp.now, cfg), w.fw));
    var u := RefreshWorld(v, inp.snap).0;
    RefreshCounts(v.clients, inp.snap, i);
    assert u.clients[i] == v.clients[i].(counters := u.clients[i].counters);
    BlockLimits(CellAt(u, i), cfg, dir);
    var d := BlockUpload(BlockDownload(CellAt(u, i), cfg), cfg).c;
    var f := d.(state := AuthBlocked);
    SameLimit(d, f, cfg);
  }

  // ---- the other changes of state -------------------------------------------------------------

  /** The changes there are: a preauthenticated client can be authenticated; an authenticated one can be throttled, or
      given up, and is then off the list. Everything else is refused with -1 and changes nothing. */
  lemma ChangeTable(w: World, i: nat, target: Mark, inp: ChangeInput, cfg: Config)
    requires i < |w.clients|
    ensures var state := w.clients[i].state;
            var (u, rc) := ChangeState(w, i, target, inp, cfg);
            if state == Preauthenticated && target == Authenticated then (u, rc) == Authorize(w, i, inp, cfg)
            else if state == Authenticated && target == AuthBlocked then (u, rc) == Block(w, i, inp, cfg)
            else if state == Authenticated && target == Preauthenticated then
              rc == 0 && u.clients == w.clients[..i] + w.clients[i + 1..] && u.deauths == w.deauths + 1
            else (u, rc) == (w, -1)
    ensures Deauth(w, i).1 == if w.clients[i].state == Authenticated then 0 else -1
  {
    hide Authorize, Block, Deauthenticate;
  }

  /** An id that is not listed is refused. */
  lemma UnlistedRefused(w: World, id: nat, inp: ChangeInput, cfg: Config)
    requires forall i :: 0 <= i < |w.clients| ==> w.clients[i].id != id
    ensures AuthClient(w, id, inp, cfg) == (w, -1) && DeauthClient(w, id) == (w, -1)
  {
  }

  // ---- the callers ----------------------------------------------------------------------------

  /** The client at i has no session, and BinAuth agrees to give it one. */
  predicate Requested(w: World, i: nat, inp: ChangeInput) {
    i < |w.clients| && w.clients[i].state == Preauthenticated && inp.binauth == 0
  }

  /** `ndsctl auth`: on top of the values the caller gave. */
  lemma ControlGrants(w: World, i: nat, p: Preset, inp: ChangeInput, cfg: Config, dir: Direction)
    requires Good(w, cfg) && Requested(w, i, inp) && inp.snap.outgoing.Some? && inp.snap.incoming.Some?
    ensures var u := Step(w, ControlAuthOp(w.clients[i].id, p, inp), cfg);
            var c := w.clients[i];
            var explicit := if p.explicitEnd.Some? then p.explicitEnd.value else c.sessionEndExplicit;
            var q := Reply(inp);
            && |u.clients| == |w.clients| && u.authCount == (w.authCount + 1) % TWO_TO_THE_32
            && var d := u.clients[i];
            && d.state == Authenticated && SameIdentity(c, d) && d.sessionStart == p.start
            && d.sessionEnd == (if q.session > 0 && !explicit then inp.now + 60 * q.session else p.end)
            && d.uploadRate == Chosen(q.uprate, p.uploadRate, cfg.uploadRate)
            && d.downloadRate == Chosen(q.downrate, p.downloadRate, cfg.downloadRate)
            && d.uploadQuota == Chosen(q.upquota, p.uploadQuota, cfg.uploadQuota)
            && d.downloadQuota == Chosen(q.downquota, p.downloadQuota, cfg.downloadQuota)
            && (Marked(d, dir) <==> LimitedAtOnce(cfg, dir))
  {
    hide MemoryOk, ListOk, NoStaleRules, Conserved, Authorize, FreshCounts, Marked, LimitedAsSet, Authenticate;
    var id := w.clients[i].id;
    PositionById(w, i, cfg);
    ClientAt(w, i, cfg);
    var v := Put(w, i, Cell(WithPreset(w.clients[i], p), w.fw));
    assert SameIdentities(w.clients, v.clients);
    FirstIndexSame(w.clients, v.clients, ById(id));
    AuthorizeOutcome(v, i, inp, cfg, dir);
    AuthorizeKeepsCount(v, i, inp, cfg);
  }

  lemma AuthorizeKeepsCount(w: World, i: nat, inp: ChangeInput, cfg: Config)
    requires i < |w.clients|
    ensures Authorize(w, i, inp, cfg).0.authCount == w.authCount
  {
    hide Refresh, Granted, AuthDownload, AuthUpload;
  }

  /** The HTTP server: after the reset only the reply and the defaults count. */
  lemma HttpGrants(w: World, i: nat, start: int, end: int, inp: ChangeInput, cfg: Config, dir: Direction)
    requires Good(w, cfg) && Requested(w, i, inp) && inp.snap.outgoing.Some? && inp.snap.incoming.Some?
    ensures var id := w.clients[i].id;
            var u := Step(Step(w, HttpResetOp(id, start, end), cfg), AuthOp(id, inp), cfg);
            var c := w.clients[i];
            var q := Reply(inp);
            && |u.clients| == |w.clients| && u.authCount == (w.authCount + 1) % TWO_TO_THE_32
            && var d := u.clients[i];
            && d.state == Authenticated && SameIdentity(c, d) && d.sessionStart == start
            && d.sessionEnd == (if q.session > 0 && !c.sessionEndExplicit then inp.now + 60 * q.session else end)
            && d.uploadRate == Chosen(q.uprate, 0, cfg.uploadRate)
            && d.downloadRate == Chosen(q.downrate, 0, cfg.downloadRate)
            && d.uploadQuota == Chosen(q.upquota, 0, cfg.uploadQuota)
            && d.downloadQuota == Chosen(q.downquota, 0, cfg.downloadQuota)
            && (Marked(d, dir) <==> LimitedAtOnce(cfg, dir))
            && Stored(d, dir) == if LimitedAtOnce(cfg, dir) && RateOf(d, dir) != 0 then LimitFor(d, cfg, dir)
                                 else Limit(0, 0)
  {
    hide MemoryOk, ListOk, NoStaleRules, Conserved, Authorize, FreshCounts, Marked, LimitFor;
    var id := w.clients[i].id;
    PositionById(w, i, cfg);
    ClientAt(w, i, cfg);
    var v := Put(w, i, Cell(Cleared(w.clients[i], start, end), w.fw));
    assert SameIdentities(w.clients, v.clients);
    FirstIndexSame(w.clients, v.clients, ById(id));
    assert Step(w, HttpResetOp(id, start, end), cfg) == v;
    ClearedOk(w.clients[i], start, end, cfg);
    AuthorizeOutcome(v, i, inp, cfg, dir);
    AuthorizeKeepsCount(v, i, inp, cfg);
  }

  lemma ClearedOk(c: ClientInfo, start: int, end: int, cfg: Config)
    requires ClientOk(c, cfg) && c.state == Preauthenticated
    ensures ClientOk(Cleared(c, start, end), cfg)
    ensures forall dir :: Stored(Cleared(c, start, end), dir) == Limit(0, 0)
  {
  }

  /** The reset itself: of a client without a session or throttled, every field named here, and no other; of an
      authenticated or trusted one, nothing. */
  lemma ResetExact(w: World, i: nat, start: int, end: int, cfg: Config)
    requires i < |w.clients| && Good(w, cfg)
    ensures var u := HttpReset(w, w.clients[i].id, start, end);
            var c := w.clients[i];
            if c.state == Preauthenticated || c.state == AuthBlocked then
              u == w.(clients := w.clients[i := u.clients[i]])
              && u.clients[i]
                 == c.(sessionStart := start, sessionEnd := end, windowCounter := 0, rateExceeded := 0,
                       uploadRate := 0, downloadRate := 0, uprate := 0, downrate := 0,
                       uploadQuota := 0, downloadQuota := 0, downloadBucketSize := 0, uploadBucketSize := 0,
                       incPacketLimit := 0, outPacketLimit := 0)
            else u == w
  {
    hide Good;
    PositionById(w, i, cfg);
  }
}
