/** The session engine as a state machine over values: the client list with its pins, the firewall
    chains, and every operation that runs under the list lock. */
module Session {
  import opened Basics
  import opened Clients
  import opened Firewall
  import opened RateLimit
  import opened CounterRefresh
  import MacLists

  /** Everything the client list lock protects. `pins`, `freed`, `deauths` and `deletions` are history:
      the pins handed out and not returned, the nodes given back to the allocator, the completed
      deauthentications and the unlinked nodes. `refs` holds the reference count of every allocated node. */
  datatype World = World(
    clients: seq<ClientInfo>, nextId: nat, count: int,
    refs: map<nat, nat>, dead: set<nat>,
    fw: Chains,
    authCount: nat,
    pins: multiset<nat>, freed: multiset<nat>, deauths: nat, deletions: nat)

  const INITIAL := World([], 1, 0, map[], {}, EMPTY, 0, multiset{}, multiset{}, 0, 0)

  // ---- one client and the firewall ------------------------------------------------------------

  datatype Cell = Cell(c: ClientInfo, fw: Chains)

  function LimitDownload(x: Cell, enable: bool, cfg: Config): Cell {
    if x.c.downloadRate == 0 then Cell(x.c.(downloadLimiting := enable), x.fw)
    else if enable then
      var limit := DownloadLimit(x.c, cfg);
      Cell(x.c.(incPacketLimit := limit.packetLimit, downloadBucketSize := limit.bucket, downloadLimiting := true),
           ReplaceDownload(x.fw, x.c.ip, Some(limit)))
    else
      Cell(x.c.(incPacketLimit := 0, downloadBucketSize := 0, downloadLimiting := false),
           ReplaceDownload(x.fw, x.c.ip, None))
  }

  function LimitUpload(x: Cell, enable: bool, cfg: Config): Cell {
    if x.c.uploadRate == 0 then Cell(x.c.(uploadLimiting := enable), x.fw)
    else if enable then
      var limit := UploadLimit(x.c, cfg);
      Cell(x.c.(outPacketLimit := limit.packetLimit, uploadBucketSize := limit.bucket, uploadLimiting := true),
           ReplaceUpload(x.fw, x.c.ip, Some(limit)))
    else
      Cell(x.c.(outPacketLimit := 0, uploadBucketSize := 0, uploadLimiting := false),
           ReplaceUpload(x.fw, x.c.ip, None))
  }

  function WithBits(x: Cell, bits: bv32): Cell {
    x.(c := x.c.(rateExceeded := bits))
  }

  function StartWindow(c: ClientInfo, now: int, cfg: Config): ClientInfo {
    c.(windowStart := now, windowCounter := cfg.rateCheckWindow,
       counters := c.counters.(inWindowStart := c.counters.incoming, outWindowStart := c.counters.outgoing))
  }

  // The rate section of the periodic pass.

  function Measure(c: ClientInfo, now: int): ClientInfo {
    var durationSecs := Wrap(now - c.windowStart + 1);
    c.(downrate := AverageRate(Wrap(c.counters.incoming - c.counters.inWindowStart), durationSecs),
       uprate := AverageRate(Wrap(c.counters.outgoing - c.counters.outWindowStart), durationSecs))
  }

  function Flipped(bits: bv32, mask: bv32): bv32 {
    bits ^ mask
  }

  function Raised(bits: bv32, mask: bv32): bv32 {
    bits | mask
  }

  function ExceedDownload(x: Cell, cfg: Config): Cell {
    if x.c.rateExceeded & 1 == 0 && 0 < x.c.downloadRate <= x.c.downrate && cfg.downloadBucketRatio > 0 then
      WithBits(LimitDownload(x, true, cfg), Flipped(x.c.rateExceeded, 1))
    else x
  }

  function ExceedUpload(x: Cell, cfg: Config): Cell {
    if x.c.rateExceeded & 2 == 0 && 0 < x.c.uploadRate <= x.c.uprate && cfg.uploadBucketRatio > 0 then
      WithBits(LimitUpload(x, true, cfg), Flipped(x.c.rateExceeded, 2))
    else x
  }

  function ExpireDownload(x: Cell, cfg: Config): Cell {
    if x.c.downloadRate > 0 && x.c.rateExceeded & 1 == 1 then
      if x.c.downloadRate > x.c.downrate && cfg.downloadUnrestrictedBursting > 0 then
        WithBits(LimitDownload(x, false, cfg), Flipped(x.c.rateExceeded, 1))
      else
        LimitDownload(LimitDownload(x, false, cfg), true, cfg)
    else x
  }

  function ExpireUpload(x: Cell, cfg: Config): Cell {
    if x.c.uploadRate > 0 && x.c.rateExceeded & 2 == 2 then
      if x.c.uploadRate > x.c.uprate && cfg.uploadUnrestrictedBursting > 0 then
        WithBits(LimitUpload(x, false, cfg), Flipped(x.c.rateExceeded, 2))
      else
        LimitUpload(LimitUpload(x, false, cfg), true, cfg)
    else x
  }

  /** A client over its rate starts being limited. */
  function Exceed(x: Cell, cfg: Config): Cell {
    ExceedUpload(ExceedDownload(x, cfg), cfg)
  }

  /** The window has run out: limiting ends or is refreshed, and a new window starts. */
  function Expire(x: Cell, now: int, cfg: Config): Cell {
    ExpireUpload(ExpireDownload(x.(c := StartWindow(x.c, now, cfg)), cfg), cfg)
  }

  function CheckRates(x: Cell, now: int, cfg: Config): Cell {
    var y := Exceed(x.(c := Measure(x.c, now)), cfg);
    if y.c.windowCounter > 1 then y.(c := y.c.(windowCounter := y.c.windowCounter - 1))
    else Expire(y, now, cfg)
  }

  // The state changes.

  type I64 = x: int | -0x8000_0000_0000_0000 <= x < 0x8000_0000_0000_0000

  /** The five numbers of a complete reply of the quota script. */
  datatype Quota = Quota(session: I64, uprate: I64, downrate: I64, upquota: I64, downquota: I64)

  /** What a state change reads from outside: the clock, the BinAuth exit code, the quota reply
      (None when it is incomplete) and the counter listings. */
  datatype ChangeInput = ChangeInput(now: int, binauth: int, quota: Option<Quota>, snap: Snapshot)

  /** A positive value assigned by the script, else what the client has, else the global default. */
  function Assigned(reply: I64, current: U64, default: U64): U64 {
    if reply > 0 then reply else if current == 0 then default else current
  }

  function Zeroed(c: ClientInfo): ClientInfo {
    c.(counters := Counters(0, 0, 0, 0, 0, 0, 0, 0, c.counters.inWindowStart, c.counters.outWindowStart,
                            c.counters.lastUpdated))
  }

  function WithRates(c: ClientInfo, up: I64, down: I64, cfg: Config): ClientInfo {
    c.(uploadRate := Assigned(up, c.uploadRate, cfg.uploadRate),
       downloadRate := Assigned(down, c.downloadRate, cfg.downloadRate))
  }

  function WithQuotas(c: ClientInfo, up: I64, down: I64, cfg: Config): ClientInfo {
    c.(uploadQuota := Assigned(up, c.uploadQuota, cfg.uploadQuota),
       downloadQuota := Assigned(down, c.downloadQuota, cfg.downloadQuota))
  }

  /** What a successful authentication grants: zeroed counters, a session end unless it was given explicitly,
      rates and quotas, and a new rate window. */
  function Granted(c: ClientInfo, explicitEnd: bool, inp: ChangeInput, cfg: Config): ClientInfo {
    var q := if inp.quota.Some? then inp.quota.value else Quota(0, 0, 0, 0, 0);
    var z := Zeroed(c);
    var d := if q.session > 0 && !explicitEnd then z.(sessionEnd := inp.now + 60 * q.session) else z;
    StartWindow(WithQuotas(WithRates(d, q.uprate, q.downrate, cfg), q.upquota, q.downquota, cfg), inp.now, cfg)
  }

  // Limiting from the start, unless bursting is unrestricted or limiting is off: the bits are toggled.

  function AuthDownload(x: Cell, cfg: Config): Cell {
    if cfg.downloadUnrestrictedBursting == 0 && cfg.downloadBucketRatio > 0
    then WithBits(LimitDownload(x, true, cfg), Flipped(x.c.rateExceeded, 1)) else x
  }

  function AuthUpload(x: Cell, cfg: Config): Cell {
    if cfg.uploadUnrestrictedBursting == 0 && cfg.uploadBucketRatio > 0
    then WithBits(LimitUpload(x, true, cfg), Flipped(x.c.rateExceeded, 2)) else x
  }

  // The same for a throttled client, whose bits may be set already.

  function BlockDownload(x: Cell, cfg: Config): Cell {
    if cfg.downloadUnrestrictedBursting == 0 && cfg.downloadBucketRatio > 0
    then WithBits(LimitDownload(x, true, cfg), Raised(x.c.rateExceeded, 1)) else x
  }

  function BlockUpload(x: Cell, cfg: Config): Cell {
    if cfg.uploadUnrestrictedBursting == 0 && cfg.uploadBucketRatio > 0
    then WithBits(LimitUpload(x, true, cfg), Raised(x.c.rateExceeded, 2)) else x
  }

  // ---- the client list ------------------------------------------------------------------------

  function CellAt(w: World, i: nat): Cell
    requires i < |w.clients|
  {
    Cell(w.clients[i], w.fw)
  }

  function Put(w: World, i: nat, x: Cell): World
    requires i < |w.clients|
  {
    w.(clients := w.clients[i := x.c], fw := x.fw)
  }

  /** Give an allocated node back to the allocator. */
  function Free(w: World, id: nat): World {
    w.(refs := w.refs - {id}, dead := w.dead - {id}, freed := w.freed + multiset{id})
  }

  function Unlink(w: World, i: nat): World
    requires i < |w.clients|
  {
    w.(clients := w.clients[..i] + w.clients[i + 1..], count := w.count - 1, deletions := w.deletions + 1)
  }

  /** Unlink a client. The node is freed at once, or marked dead while requests still hold it. */
  function DeleteAt(w: World, i: nat): World
    requires i < |w.clients|
  {
    var id := w.clients[i].id;
    var u := Unlink(w, i);
    if id in w.refs && w.refs[id] > 0 then u.(dead := u.dead + {id}) else Free(u, id)
  }

  function Pin(w: World, id: nat): World
    requires id in w.refs
  {
    w.(refs := w.refs[id := w.refs[id] + 1], pins := w.pins + multiset{id})
  }

  /** Return one pin; the last pin of a dead node frees it. */
  function Unpin(w: World, id: nat): World
    requires id in w.refs
  {
    var left := if w.refs[id] > 0 then w.refs[id] - 1 else 0;
    var u := w.(refs := w.refs[id := left], pins := w.pins - multiset{id});
    if id in w.dead && left == 0 then Free(u, id) else u
  }

  /** What adding a client reads: the addresses, the verdicts of the address and DHCP checks, whether a
      token could be drawn, the trusted list and the clock. */
  datatype AddRequest = AddRequest(mac: string, ip: string, ipValid: bool, dhcpAllocated: bool, tokenDrawn: bool,
                                   trustedMacs: seq<string>, at: int)

  function NewClient(id: nat, mac: string, ip: string, trusted: bool, at: int): ClientInfo {
    ClientInfo(id, ip, mac, if trusted then Trusted else Preauthenticated,
               0, 0, false, 0, 0, 0,
               Counters(0, 0, 0, 0, 0, 0, 0, 0, 0, 0, at),
               0, 0, 0, 0, 0, 0, 0, 0, 0, 0, false, false)
  }

  function Append(w: World, c: ClientInfo): World {
    w.(clients := w.clients + [c], nextId := w.nextId + 1, count := w.count + 1, refs := w.refs[c.id := 0])
  }

  /** Find the client or append it. The second component is its position, if there is one. */
  function FindOrAppend(w: World, req: AddRequest, cfg: Config): (World, Option<nat>) {
    var i := FirstIndex(w.clients, ByMacIp(req.mac, req.ip));
    if i < |w.clients| then (w, Some(i))
    else if w.count >= cfg.maxclients || !req.tokenDrawn then (w, None)
    else (Append(w, NewClient(w.nextId, req.mac, req.ip, MacLists.IsTrusted(req.trustedMacs, req.mac), req.at)),
          Some(|w.clients|))
  }

  predicate Admissible(req: AddRequest) {
    MacLists.MacFormat(req.mac) && req.ipValid && req.dhcpAllocated
  }

  function PinAt(w: World, i: nat): World
    requires i < |w.clients|
  {
    if w.clients[i].id in w.refs then Pin(w, w.clients[i].id) else w
  }

  function AddPinned(w: World, req: AddRequest, cfg: Config): World {
    if !Admissible(req) then w
    else
      var (u, i) := FindOrAppend(w, req, cfg);
      if i.Some? && i.value < |u.clients| then PinAt(u, i.value) else u
  }

  function AddUnpinned(w: World, req: AddRequest, cfg: Config): World {
    if !Admissible(req) then w else FindOrAppend(w, req, cfg).0
  }

  function FindAndPin(w: World, mac: string, ip: string): World {
    var i := FirstIndex(w.clients, ByMacIp(mac, ip));
    if i < |w.clients| then PinAt(w, i) else w
  }

  // ---- state changes and the operations built on them -----------------------------------------

  function RefreshWorld(w: World, snap: Snapshot): (World, bool) {
    var (cs, ok) := Refresh(w.clients, snap);
    (w.(clients := cs), ok)
  }

  /** Parameters granted, rules installed and counters refreshed; the client is still preauthenticated. */
  function Admit(w: World, i: nat, inp: ChangeInput, cfg: Config): (r: (World, bool))
    requires i < |w.clients|
    ensures |r.0.clients| == |w.clients|
  {
    var c := w.clients[i];
    var granted := Granted(c.(sessionEndExplicit := false), c.sessionEndExplicit, inp, cfg);
    RefreshWorld(Put(w, i, Cell(granted, Authenticate(w.fw, c.ip, c.mac))), inp.snap)
  }

  /** The rules of an admission are taken back. */
  function Withdraw(w: World, i: nat): World
    requires i < |w.clients|
  {
    w.(fw := Deauthenticate(w.fw, w.clients[i].ip))
  }

  function Complete(w: World, i: nat, cfg: Config): World
    requires i < |w.clients|
  {
    var y := AuthUpload(AuthDownload(CellAt(w, i), cfg), cfg);
    Put(w, i, y.(c := y.c.(state := Authenticated)))
  }

  /** BinAuth may refuse; when the counters cannot be read the rules just installed are removed again. */
  function Authorize(w: World, i: nat, inp: ChangeInput, cfg: Config): (World, int)
    requires i < |w.clients|
  {
    if inp.binauth != 0 then (Put(w, i, Cell(w.clients[i].(sessionEndExplicit := false), w.fw)), 1)
    else
      var (u, ok) := Admit(w, i, inp, cfg);
      if ok then (Complete(u, i, cfg), 0) else (Withdraw(u, i), -1)
  }

  function BeginBlock(w: World, i: nat, inp: ChangeInput, cfg: Config): (r: (World, bool))
    requires i < |w.clients|
    ensures |r.0.clients| == |w.clients|
  {
    RefreshWorld(Put(w, i, Cell(StartWindow(w.clients[i], inp.now, cfg), w.fw)), inp.snap)
  }

  function FinishBlock(w: World, i: nat, cfg: Config): World
    requires i < |w.clients|
  {
    var y := BlockUpload(BlockDownload(CellAt(w, i), cfg), cfg);
    Put(w, i, y.(c := y.c.(state := AuthBlocked)))
  }

  function Block(w: World, i: nat, inp: ChangeInput, cfg: Config): (World, int)
    requires i < |w.clients|
  {
    var (u, ok) := BeginBlock(w, i, inp, cfg);
    if ok then (FinishBlock(u, i, cfg), 0) else (u, -1)
  }

  function Revoke(w: World, i: nat): World
    requires i < |w.clients|
  {
    var u := DeleteAt(w.(fw := Deauthenticate(w.fw, w.clients[i].ip)), i);
    u.(deauths := u.deauths + 1)
  }

  /** `auth_change_state`. AuthBlocked and Trusted have no way out, and a deauthenticated client is deleted. */
  function ChangeState(w: World, i: nat, target: Mark, inp: ChangeInput, cfg: Config): (World, int)
    requires i < |w.clients|
  {
    match w.clients[i].state
    case Preauthenticated => if target == Authenticated then Authorize(w, i, inp, cfg) else (w, -1)
    case Authenticated =>
      if target == Preauthenticated then (Revoke(w, i), 0)
      else if target == AuthBlocked then Block(w, i, inp, cfg)
      else (w, -1)
    case AuthBlocked => (w, -1)
    case Trusted => (w, -1)
  }

  /** A deauthentication reads nothing from outside. */
  function Deauth(w: World, i: nat): (World, int)
    requires i < |w.clients|
  {
    if w.clients[i].state == Authenticated then (Revoke(w, i), 0) else (w, -1)
  }

  function AuthClient(w: World, id: nat, inp: ChangeInput, cfg: Config): (World, int) {
    var i := FirstIndex(w.clients, ById(id));
    if i == |w.clients| then (w, -1)
    else
      var (u, rc) := ChangeState(w, i, Authenticated, inp, cfg);
      (if rc == 0 then u.(authCount := (u.authCount + 1) % TWO_TO_THE_32) else u, rc)
  }

  function DeauthClient(w: World, id: nat): (World, int) {
    var i := FirstIndex(w.clients, ById(id));
    if i == |w.clients| then (w, -1) else Deauth(w, i)
  }

  function DeauthIds(w: World, ids: seq<nat>): World
    decreases |ids|
  {
    if ids == [] then w else DeauthIds(DeauthClient(w, ids[0]).0, ids[1..])
  }

  /** `auth_client_deauth_all`: the walk over the list as it was at the start. */
  function DeauthAll(w: World): World {
    DeauthIds(w, Ids(w.clients))
  }

  /** What the control socket and the preemptive list set on a preauthenticated client before authenticating it. */
  datatype Preset = Preset(start: int, end: int, explicitEnd: Option<bool>,
                           uploadRate: U64, downloadRate: U64, uploadQuota: U64, downloadQuota: U64)

  function WithPreset(c: ClientInfo, p: Preset): ClientInfo {
    c.(sessionStart := p.start, sessionEnd := p.end,
       sessionEndExplicit := if p.explicitEnd.Some? then p.explicitEnd.value else c.sessionEndExplicit,
       uploadRate := p.uploadRate, downloadRate := p.downloadRate,
       uploadQuota := p.uploadQuota, downloadQuota := p.downloadQuota)
  }

  function ControlAuth(w: World, id: nat, p: Preset, inp: ChangeInput, cfg: Config): World {
    var i := FirstIndex(w.clients, ById(id));
    if i == |w.clients| || w.clients[i].state != Preauthenticated then w
    else AuthClient(Put(w, i, Cell(WithPreset(w.clients[i], p), w.fw)), id, inp, cfg).0
  }

  function ClearedLimits(c: ClientInfo): ClientInfo {
    c.(windowCounter := 0, rateExceeded := 0,
       downloadBucketSize := 0, uploadBucketSize := 0, incPacketLimit := 0, outPacketLimit := 0)
  }

  function ClearedRates(c: ClientInfo): ClientInfo {
    c.(uploadRate := 0, downloadRate := 0, uprate := 0, downrate := 0, uploadQuota := 0, downloadQuota := 0)
  }

  /** The reset of a client before an HTTP request authenticates it. */
  function Cleared(c: ClientInfo, start: int, end: int): ClientInfo {
    ClearedRates(ClearedLimits(c)).(sessionStart := start, sessionEnd := end)
  }

  function HttpReset(w: World, id: nat, start: int, end: int): World {
    var i := FirstIndex(w.clients, ById(id));
    if i == |w.clients| || w.clients[i].state == Authenticated || w.clients[i].state == Trusted then w
    else Put(w, i, Cell(Cleared(w.clients[i], start, end), w.fw))
  }

  /** The client is listed and has no session yet. */
  predicate Waiting(w: World, id: nat) {
    var i := FirstIndex(w.clients, ById(id));
    i < |w.clients| && w.clients[i].state == Preauthenticated
  }

  // ---- the periodic pass ----------------------------------------------------------------------

  predicate SessionOver(c: ClientInfo, now: int) {
    0 < c.sessionEnd <= now
  }

  predicate QuotaReached(c: ClientInfo, dir: Direction) {
    match dir
    case Download => 0 < c.downloadQuota <= c.counters.incoming / 1024
    case Upload => 0 < c.uploadQuota <= c.counters.outgoing / 1024
  }

  function ThrottleRate(cfg: Config, dir: Direction): U64 {
    match dir
    case Download => cfg.fupDownloadThrottleRate
    case Upload => cfg.fupUploadThrottleRate
  }

  function WithRate(c: ClientInfo, dir: Direction, rate: U64): ClientInfo {
    match dir
    case Download => c.(downloadRate := rate)
    case Upload => c.(uploadRate := rate)
  }

  predicate Idle(c: ClientInfo, idleSecs: int, now: int) {
    idleSecs > 0 && c.counters.lastUpdated + idleSecs <= now
  }

  /** A quota has been reached, there is a throttle rate, and the client is not at it yet. */
  predicate ThrottleDue(c: ClientInfo, dir: Direction, cfg: Config) {
    QuotaReached(c, dir) && ThrottleRate(cfg, dir) != 0 && RateOf(c, dir) != ThrottleRate(cfg, dir)
  }

  predicate CutOffDue(c: ClientInfo, dir: Direction, cfg: Config) {
    QuotaReached(c, dir) && ThrottleRate(cfg, dir) == 0
  }

  function Throttle(w: World, i: nat, dir: Direction, inp: ChangeInput, cfg: Config): (r: World)
    requires i < |w.clients|
    ensures |r.clients| == |w.clients|
  {
    if ThrottleDue(w.clients[i], dir, cfg) then
      var u := Put(w, i, Cell(WithRate(w.clients[i], dir, ThrottleRate(cfg, dir)), w.fw));
      ChangeState(u, i, AuthBlocked, inp, cfg).0
    else w
  }

  /** The environment of a pass: what a throttling state change reads, by client and direction. */
  type Environment = (nat, Direction) -> ChangeInput

  /** The part of a turn after the download quota, on a client that was `c` when the turn began. */
  function LateTurn(w: World, i: nat, c: ClientInfo, now: int, cfg: Config, env: Environment): World
    requires i < |w.clients|
  {
    if CutOffDue(w.clients[i], Upload, cfg) then Deauth(w, i).0
    else
      var v := Throttle(w, i, Upload, env(c.id, Upload), cfg);
      if c.state == Authenticated && Idle(c, cfg.authIdleSecs, now) then Deauth(v, i).0
      else if v.clients[i].state != Preauthenticated then Put(v, i, CheckRates(CellAt(v, i), now, cfg))
      else v
  }

  /** One turn of the loop, on the client at position i. The activity time and the state the idle test
      uses are those read at the start of the turn. */
  function PassTurn(w: World, i: nat, now: int, cfg: Config, env: Environment): World
    requires i < |w.clients|
  {
    var c := w.clients[i];
    if c.state == Preauthenticated then
      if Idle(c, cfg.preauthIdleSecs, now) then DeleteAt(w, i) else w
    else if SessionOver(c, now) || CutOffDue(c, Download, cfg) then Deauth(w, i).0
    else LateTurn(Throttle(w, i, Download, env(c.id, Download), cfg), i, c, now, cfg, env)
  }

  function PassClient(w: World, id: nat, now: int, cfg: Config, env: Environment): World {
    var i := FirstIndex(w.clients, ById(id));
    if i == |w.clients| then w else PassTurn(w, i, now, cfg, env)
  }

  function PassWalk(w: World, ids: seq<nat>, now: int, cfg: Config, env: Environment): World
    decreases |ids|
  {
    if ids == [] then w else PassWalk(PassClient(w, ids[0], now, cfg, env), ids[1..], now, cfg, env)
  }

  /** The locked part of `fw_refresh_client_list`. */
  function Pass(w: World, now: int, snap: Snapshot, cfg: Config, env: Environment): World {
    var (u, ok) := RefreshWorld(w, snap);
    if !ok then u else PassWalk(u, Ids(u.clients), now, cfg, env)
  }

  // ---- runs -----------------------------------------------------------------------------------

  /** One critical section of the list lock. */
  datatype Op =
    | FindAndPinOp(mac: string, ip: string)
    | AddPinnedOp(req: AddRequest)
    | AddUnpinnedOp(req: AddRequest)
    | UnpinOp(id: nat)
    | AuthOp(id: nat, inp: ChangeInput)
    | ControlAuthOp(id: nat, preset: Preset, inp: ChangeInput)
    | HttpResetOp(id: nat, start: int, end: int)
    | DeauthOp(id: nat)
    | DeauthAllOp
    | PassOp(now: int, snap: Snapshot, env: Environment)

  function Step(w: World, op: Op, cfg: Config): World {
    match op
    case FindAndPinOp(mac, ip) => FindAndPin(w, mac, ip)
    case AddPinnedOp(req) => AddPinned(w, req, cfg)
    case AddUnpinnedOp(req) => AddUnpinned(w, req, cfg)
    // a request unpins only what it has pinned
    case UnpinOp(id) => if id in w.pins && id in w.refs then Unpin(w, id) else w
    case AuthOp(id, inp) => AuthClient(w, id, inp, cfg).0
    case ControlAuthOp(id, preset, inp) => ControlAuth(w, id, preset, inp, cfg)
    // the reset of a throttled client is no operation of a run
    case HttpResetOp(id, start, end) => if Waiting(w, id) then HttpReset(w, id, start, end) else w
    case DeauthOp(id) => DeauthClient(w, id).0
    case DeauthAllOp => DeauthAll(w)
    case PassOp(now, snap, env) => Pass(w, now, snap, cfg, env)
  }

  /** The state after a run, one operation after the other from the empty list. */
  function Run(ops: seq<Op>, cfg: Config): World {
    if ops == [] then INITIAL
    else Step(Run(ops[..|ops| - 1], cfg), ops[|ops| - 1], cfg)
  }
}
