/** Single operations whose outcome is known exactly, to put concrete runs together. */
module RunSteps {
  import opened Basics
  import opened Clients
  import opened Firewall
  import opened CounterRefresh
  import opened Session
  import MacLists

  lemma NothingRun(cfg: Config)
    ensures Run([], cfg) == INITIAL
  {
  }

  lemma RunStep(ops: seq<Op>, op: Op, cfg: Config)
    ensures Run(ops + [op], cfg) == Step(Run(ops, cfg), op, cfg)
  {
    hide Step;
    assert (ops + [op])[..|ops|] == ops;
  }

  /** BinAuth agrees and both listings can be read. */
  predicate Readable(inp: ChangeInput) {
    inp.binauth == 0 && inp.snap.outgoing.Some? && inp.snap.incoming.Some?
  }

  const NO_LINES := Snapshot(Some([]), Some([]), 0)

  lemma NoLines(cs: seq<ClientInfo>)
    ensures Refresh(cs, NO_LINES) == (cs, true)
  {
  }

  function OneUpload(ip: string, bytes: U64, at: int): Snapshot {
    Snapshot(Some([Line(ip, 1, bytes)]), Some([]), at)
  }

  function OneDownload(ip: string, bytes: U64, at: int): Snapshot {
    Snapshot(Some([]), Some([Line(ip, 1, bytes)]), at)
  }

  lemma OneLine(cs: seq<ClientInfo>, dir: Direction, line: Line, at: int)
    ensures ApplyLines(cs, dir, [line], at) == ApplyLine(cs, dir, line, at)
  {
    assert [line][..0] == [];
    assert ApplyLines(cs, dir, [line], at) == ApplyLine(ApplyLines(cs, dir, [], at), dir, line, at);
  }

  /** A snapshot of one line goes to the first client with the address. */
  lemma OneUploadRefresh(cs: seq<ClientInfo>, i: nat, bytes: U64, at: int)
    requires i < |cs| && cs[i].ip != "0.0.0.0" && forall j :: 0 <= j < i ==> cs[j].ip != cs[i].ip
    ensures Refresh(cs, OneUpload(cs[i].ip, bytes, at))
            == (cs[i := cs[i].(counters := CountOutgoing(cs[i].counters, Line(cs[i].ip, 1, bytes), at))], true)
  {
    hide CountOutgoing;
    FirstIndexUnique(cs, ByIp(cs[i].ip), i);
    OneLine(cs, Upload, Line(cs[i].ip, 1, bytes), at);
  }

  lemma OneDownloadRefresh(cs: seq<ClientInfo>, i: nat, bytes: U64, at: int)
    requires i < |cs| && cs[i].ip != "0.0.0.0" && forall j :: 0 <= j < i ==> cs[j].ip != cs[i].ip
    ensures Refresh(cs, OneDownload(cs[i].ip, bytes, at))
            == (cs[i := cs[i].(counters := CountIncoming(cs[i].counters, Line(cs[i].ip, 1, bytes)))], true)
  {
    hide CountIncoming;
    FirstIndexUnique(cs, ByIp(cs[i].ip), i);
    OneLine(cs, Download, Line(cs[i].ip, 1, bytes), at);
  }

  // ---- additions ------------------------------------------------------------------------------

  function Request(mac: string, ip: string): AddRequest {
    AddRequest(mac, ip, true, true, true, [], 0)
  }

  lemma Added(w: World, mac: string, ip: string, cfg: Config)
    requires MacLists.MacFormat(mac) && w.count < cfg.maxclients
    requires forall i :: 0 <= i < |w.clients| ==> !Matches(w.clients[i], ByMacIp(mac, ip))
    ensures Step(w, AddUnpinnedOp(Request(mac, ip)), cfg) == Append(w, NewClient(w.nextId, mac, ip, false, 0))
  {
    hide MacLists.MacFormat;
    FirstIndexUnique(w.clients, ByMacIp(mac, ip), |w.clients|);
  }

  // ---- authentications without limiting ---------------------------------------------------------

  predicate NoLimiting(cfg: Config) {
    cfg.downloadBucketRatio == 0 && cfg.uploadBucketRatio == 0
  }

  /** The client with its preset values and what the authentication grants on top of them. */
  function Opened(c: ClientInfo, p: Preset, inp: ChangeInput, cfg: Config): ClientInfo {
    var d := WithPreset(c, p);
    Granted(d.(sessionEndExplicit := false), d.sessionEndExplicit, inp, cfg)
  }

  lemma PresetAuth(w: World, i: nat, p: Preset, inp: ChangeInput, cfg: Config)
    requires i < |w.clients| && FirstIndex(w.clients, ById(w.clients[i].id)) == i
    requires w.clients[i].state == Preauthenticated && Readable(inp) && NoLimiting(cfg)
    ensures var u := Step(w, ControlAuthOp(w.clients[i].id, p, inp), cfg);
            var r := Refresh(w.clients[i := Opened(w.clients[i], p, inp, cfg)], inp.snap).0;
            u.clients == r[i := r[i].(state := Authenticated)]
  {
    hide Refresh, Granted, WithPreset, Authenticate;
    var id := w.clients[i].id;
    var v := Put(w, i, Cell(WithPreset(w.clients[i], p), w.fw));
    PresetKeeps(w.clients[i], p);
    assert SameIdentities(w.clients, v.clients);
    FirstIndexSame(w.clients, v.clients, ById(id));
    ReadableRefresh(v.clients[i := Opened(w.clients[i], p, inp, cfg)], inp);
    assert v.clients[i := Opened(w.clients[i], p, inp, cfg)] == w.clients[i := Opened(w.clients[i], p, inp, cfg)];
  }

  lemma PresetKeeps(c: ClientInfo, p: Preset)
    ensures SameIdentity(WithPreset(c, p), c) && WithPreset(c, p).state == c.state
  {
  }

  lemma ReadableRefresh(cs: seq<ClientInfo>, inp: ChangeInput)
    requires Readable(inp)
    ensures Refresh(cs, inp.snap).1
  {
  }
}
